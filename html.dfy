/**
 * The attribute helpers of gen/markdown/html.go over a parsed tag
 * (golang.org/x/net/html's Node, of which only the tag name and the
 * attribute list matter here), and the internal/external link test.
 */
module Html {
  import opened Ast
  import opened Strs

  datatype Attribute = Attribute(key: string, val: string)

  /** A parsed tag as a value: its name (Node.Data) and its attributes in source order. */
  datatype Tag = Tag(data: string, attr: seq<Attribute>)

  /** A parsed tag that setTagAttr can update in place. */
  class TagNode {
    var data: string
    var attr: seq<Attribute>

    constructor (t: Tag)
      ensures Value() == t
    {
      data := t.data;
      attr := t.attr;
    }

    function Value(): Tag
      reads this
    {
      Tag(data, attr)
    }
  }

  /** The position of the first attribute named `name`, if any. */
  function FirstAttr(attrs: seq<Attribute>, name: string): (r: Option<nat>)
    ensures r.Some? ==> r.value < |attrs| && attrs[r.value].key == name
                        && (forall j :: 0 <= j < r.value ==> attrs[j].key != name)
    ensures r.None? <==> forall j :: 0 <= j < |attrs| ==> attrs[j].key != name
  {
    if attrs == [] then None
    else if attrs[0].key == name then Some(0)
    else match FirstAttr(attrs[1..], name)
      case None => None
      case Some(i) => Some(i + 1)
  }

  /** getTagAttrPtr: scan the attributes in order; a nil node has none. */
  method GetTagAttrPtr(n: TagNode?, name: string) returns (r: Option<nat>)
    ensures n == null ==> r == None
    ensures n != null ==> r == FirstAttr(n.attr, name)
  {
    if n == null {
      return None;
    }
    var i := 0;
    while i < |n.attr|
      invariant 0 <= i <= |n.attr|
      invariant forall j :: 0 <= j < i ==> n.attr[j].key != name
    {
      if n.attr[i].key == name {
        return Some(i);
      }
      i := i + 1;
    }
    return None;
  }

  /** getTagAttr: the value of the first attribute named `name`, or "" when there is none. */
  function GetTagAttr(t: Tag, name: string): (v: string)
    ensures (exists j :: 0 <= j < |t.attr| && t.attr[j].key == name) ==>
      exists j :: 0 <= j < |t.attr| && t.attr[j].key == name && v == t.attr[j].val
        && forall i :: 0 <= i < j ==> t.attr[i].key != name
    ensures (forall j :: 0 <= j < |t.attr| ==> t.attr[j].key != name) ==> v == ""
  {
    match FirstAttr(t.attr, name)
    case None => ""
    case Some(i) => t.attr[i].val
  }

  /** The attribute list setTagAttr leaves: the first `name` updated, or `name=val` appended. */
  function SetAttr(attrs: seq<Attribute>, name: string, val: string): seq<Attribute>
  {
    match FirstAttr(attrs, name)
    case None => attrs + [Attribute(name, val)]
    case Some(i) => attrs[i := Attribute(name, val)]
  }

  /** setTagAttr, updating the tag in place. */
  method SetTagAttr(n: TagNode, name: string, val: string)
    modifies n
    ensures n.data == old(n.data)
    ensures n.attr == SetAttr(old(n.attr), name, val)
  {
    var i := GetTagAttrPtr(n, name);
    if i.None? {
      n.attr := n.attr + [Attribute(name, val)];
    } else {
      n.attr := n.attr[i.value := n.attr[i.value].(val := val)];
    }
  }

  /** After setting `name` to `val`, reading `name` gives `val`. */
  lemma GetAfterSet(t: Tag, name: string, val: string)
    ensures GetTagAttr(Tag(t.data, SetAttr(t.attr, name, val)), name) == val
  {
    var a := SetAttr(t.attr, name, val);
    match FirstAttr(t.attr, name)
    case None =>
      assert a[|t.attr|].key == name;
      assert FirstAttr(a, name) == Some(|t.attr|) by {
        FirstAttrIs(a, name, |t.attr|);
      }
    case Some(i) =>
      FirstAttrIs(a, name, i);
  }

  /** Setting `name` changes no other key's value. */
  lemma SetKeepsOthers(t: Tag, name: string, val: string, other: string)
    requires other != name
    ensures GetTagAttr(Tag(t.data, SetAttr(t.attr, name, val)), other) == GetTagAttr(t, other)
  {
    var a := SetAttr(t.attr, name, val);
    assert forall j :: 0 <= j < |a| ==> (a[j].key == other <==> j < |t.attr| && t.attr[j].key == other);
    match FirstAttr(t.attr, other)
    case None =>
      assert FirstAttr(a, other) == None;
    case Some(i) =>
      FirstAttrIs(a, other, i);
  }

  /** setTagAttr either updates one attribute in place or appends one at the end; the rest stay as they were. */
  lemma SetAttrShape(attrs: seq<Attribute>, name: string, val: string)
    ensures var a := SetAttr(attrs, name, val);
      (|a| == |attrs| && exists i :: 0 <= i < |a| && a == attrs[i := Attribute(name, val)] && attrs[i].key == name)
      || (a == attrs + [Attribute(name, val)] && forall j :: 0 <= j < |attrs| ==> attrs[j].key != name)
  {
  }

  /** The first attribute named `name` is at `i` iff `i` holds `name` and no earlier one does. */
  lemma FirstAttrIs(attrs: seq<Attribute>, name: string, i: nat)
    requires i < |attrs| && attrs[i].key == name
    requires forall j :: 0 <= j < i ==> attrs[j].key != name
    ensures FirstAttr(attrs, name) == Some(i)
  {
    var r := FirstAttr(attrs, name);
    assert r.Some?;
    assert r.value == i by {
      if r.value < i {
      } else if r.value > i {
      }
    }
  }

  /** getTagOnlyAttr: the key and value of the sole attribute, or ("", "") unless there is exactly one. */
  function GetTagOnlyAttr(t: Tag): (kv: (string, string))
    ensures |t.attr| == 1 ==> kv == (t.attr[0].key, t.attr[0].val)
    ensures |t.attr| != 1 ==> kv == ("", "")
  {
    if |t.attr| != 1 then ("", "") else (t.attr[0].key, t.attr[0].val)
  }

  /** isExternalLink: an absolute http or https URL. */
  predicate IsExternalLink(ref: string) {
    HasPrefix(ref, "http://") || HasPrefix(ref, "https://")
  }
}
