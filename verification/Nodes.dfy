/** Stanzas: a tag, ordered attributes and a content. */
module Nodes {
  import opened Bytes
  import opened Jids

  /** Everything an attribute or a content may hold; Absent is the missing value. */
  datatype Value =
    | Absent
    | Text(text: string)
    | Number(number: int)
    | Truth(truth: bool)
    | Address(jid: JID)
    | Blob(blob: seq<Byte>)
    | Children(children: seq<Node>)

  /** One entry of the insertion-ordered attribute dictionary. */
  datatype Attr = Attr(key: string, value: Value)

  datatype Node = Node(tag: string, attrs: seq<Attr>, content: Value)

  ghost predicate HasKey(attrs: seq<Attr>, key: string) {
    exists i :: 0 <= i < |attrs| && attrs[i].key == key
  }

  /** A dictionary holds each key once. */
  ghost predicate DistinctKeys(attrs: seq<Attr>) {
    forall i, j :: 0 <= i < j < |attrs| ==> attrs[i].key != attrs[j].key
  }

  /** Dictionary assignment: an existing key keeps its place, a new one goes last. */
  function Put(attrs: seq<Attr>, key: string, value: Value): (r: seq<Attr>)
    ensures !HasKey(attrs, key) ==> r == attrs + [Attr(key, value)]
  {
    if attrs == [] then [Attr(key, value)]
    else if attrs[0].key == key then assert HasKey(attrs, key); [Attr(key, value)] + attrs[1..]
    else
      var tail := Put(attrs[1..], key, value);
      assert HasKey(attrs[1..], key) ==> HasKey(attrs, key) by {
        if HasKey(attrs[1..], key) {
          var i :| 0 <= i < |attrs[1..]| && attrs[1..][i].key == key;
          assert attrs[i + 1].key == key;
        }
      }
      [attrs[0]] + tail
  }

  /** Dictionary lookup; Absent when the key is missing. */
  function Get(attrs: seq<Attr>, key: string): Value {
    if attrs == [] then Absent
    else if attrs[0].key == key then attrs[0].value
    else Get(attrs[1..], key)
  }
}
