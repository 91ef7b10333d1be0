/** Canonical identifiers of the message cache. */
module Canonical {
  import opened Wrappers

  const PN_SUFFIX := "@s.whatsapp.net"
  const LID_SUFFIX := "@lid"

  predicate EndsWith(s: string, suffix: string) {
    |s| >= |suffix| && s[|s| - |suffix|..] == suffix
  }

  /** What stands before the first '@'. */
  function LocalPart(jid: string): string {
    if jid == "" || jid[0] == '@' then "" else [jid[0]] + LocalPart(jid[1..])
  }

  predicate AllDigits(s: string) {
    s != "" && forall i :: 0 <= i < |s| ==> '0' <= s[i] <= '9'
  }

  /** Known hidden identities, by the phone-number identifier they belong to. */
  type Inverted = map<string, string>

  /** Long phone-number locals are misfiled hidden ones; others go to their hidden twin when it is known. */
  function CanonicalJid(jid: string, inverted: Inverted): string {
    if !EndsWith(jid, PN_SUFFIX) then jid
    else if AllDigits(LocalPart(jid)) && |LocalPart(jid)| > 13 then LocalPart(jid) + LID_SUFFIX
    else if jid in inverted && inverted[jid] != "" then inverted[jid] + LID_SUFFIX
    else jid
  }

  lemma LidIsNotPn(local: string)
    ensures !EndsWith(local + LID_SUFFIX, PN_SUFFIX)
  {
    var s := local + LID_SUFFIX;
    assert s[|s| - 1] == 'd';
    if |s| >= |PN_SUFFIX| {
      assert s[|s| - |PN_SUFFIX|..][|PN_SUFFIX| - 1] == 'd';
    }
  }

  lemma LocalIsUser(user: string, rest: string)
    requires '@' !in user
    ensures LocalPart(user + "@" + rest) == user
    decreases |user|
  {
    var jid := user + "@" + rest;
    if user != "" {
      assert jid[1..] == user[1..] + "@" + rest;
      LocalIsUser(user[1..], rest);
    }
  }

  /**
   * Case by case: identifiers off the phone-number server stay; on it, a user of 14 digits and more moves to
   * the hidden server, another one becomes its known hidden twin, and the rest stay.
   */
  lemma CanonicalCases(user: string, rest: string, inverted: Inverted)
    requires '@' !in user
    ensures var jid, twin := user + "@" + rest, user + "@" + rest in inverted && inverted[user + "@" + rest] != "";
            var onPhoneServer := |jid| >= 15 && jid[|jid| - 15..] == "@s.whatsapp.net";
            var misfiled := |user| >= 14 && forall i :: 0 <= i < |user| ==> '0' <= user[i] <= '9';
            CanonicalJid(jid, inverted)
            == if !onPhoneServer then jid
               else if misfiled then user + "@lid"
               else if twin then inverted[jid] + "@lid" else jid
    ensures CanonicalJid(user, inverted) == user
  {
    LocalIsUser(user, rest);
    assert |PN_SUFFIX| == 15;
    if |user| >= 15 {
      assert user[|user| - 15..][0] == user[|user| - 15];
      assert PN_SUFFIX[0] == '@';
    }
  }

  /** Canonical identifiers stay what they are, so canonicalising twice is canonicalising once. */
  lemma CanonicalIdempotent(jid: string, inverted: Inverted)
    ensures CanonicalJid(CanonicalJid(jid, inverted), inverted) == CanonicalJid(jid, inverted)
    ensures CanonicalJid(jid, inverted) == jid || EndsWith(CanonicalJid(jid, inverted), LID_SUFFIX)
  {
    var c := CanonicalJid(jid, inverted);
    if c != jid {
      var local := if AllDigits(LocalPart(jid)) && |LocalPart(jid)| > 13 then LocalPart(jid) else inverted[jid];
      assert c == local + LID_SUFFIX;
      LidIsNotPn(local);
    }
  }

  /** An insertion-ordered dictionary. */
  type Dict<V> = seq<(string, V)>

  ghost predicate DistinctKeys<V>(d: Dict<V>) {
    forall i, j :: 0 <= i < j < |d| ==> d[i].0 != d[j].0
  }

  function Find<V>(d: Dict<V>, key: string): (r: int)
    ensures -1 <= r < |d|
    ensures r >= 0 ==> d[r].0 == key
    ensures r < 0 ==> forall i :: 0 <= i < |d| ==> d[i].0 != key
  {
    if d == [] then -1
    else if d[0].0 == key then 0
    else
      var i := Find(d[1..], key);
      assert forall k :: 0 <= k < |d[1..]| ==> d[1..][k] == d[k + 1];
      if i < 0 then -1 else i + 1
  }

  /** Assignment: an existing key keeps its place. */
  function Assign<V>(d: Dict<V>, key: string, v: V): (r: Dict<V>)
    ensures DistinctKeys(d) ==> DistinctKeys(r)
    ensures Find(d, key) < 0 ==> r == d + [(key, v)]
  {
    var i := Find(d, key);
    if i < 0 then d + [(key, v)] else d[i := (key, v)]
  }

  function Lookup<V>(d: Dict<V>, key: string): Option<V> {
    var i := Find(d, key);
    if i < 0 then None else Some(d[i].1)
  }

  lemma {:induction false} SameKeysSameFind<V>(a: Dict<V>, b: Dict<V>, key: string)
    requires |a| == |b| && forall i :: 0 <= i < |a| ==> a[i].0 == b[i].0
    ensures Find(a, key) == Find(b, key)
    decreases |a|
  {
    if a != [] {
      assert forall i :: 0 <= i < |a[1..]| ==> a[1..][i] == a[i + 1] && b[1..][i] == b[i + 1];
      SameKeysSameFind(a[1..], b[1..], key);
    }
  }

  lemma {:induction false} FindInAppended<V>(d: Dict<V>, key: string, v: V, other: string)
    ensures Find(d + [(key, v)], other)
            == if Find(d, other) >= 0 then Find(d, other) else if other == key then |d| else -1
    decreases |d|
  {
    if d == [] {
      assert d + [(key, v)] == [(key, v)];
      assert [(key, v)][1..] == [];
    } else {
      assert (d + [(key, v)])[1..] == d[1..] + [(key, v)];
      FindInAppended(d[1..], key, v, other);
    }
  }

  /** Reading a dictionary after an assignment. */
  lemma LookupAssigned<V>(d: Dict<V>, key: string, v: V, other: string)
    ensures Lookup(Assign(d, key, v), other) == if other == key then Some(v) else Lookup(d, other)
  {
    if Find(d, key) < 0 {
      FindInAppended(d, key, v, other);
    } else {
      SameKeysSameFind(d, Assign(d, key, v), other);
    }
  }

  /** Position of the last entry with this value, or -1. */
  function LastWith(d: Dict<string>, v: string): (i: int)
    ensures -1 <= i < |d|
    ensures i >= 0 ==> d[i].1 == v
    ensures forall j :: i < j < |d| ==> d[j].1 != v
  {
    if d == [] then -1
    else if d[|d| - 1].1 == v then |d| - 1
    else LastWith(d[..|d| - 1], v)
  }

  /** The inverse of a dictionary of texts: it has every value, with the key of the last entry that holds it. */
  function Invert(d: Dict<string>): (m: Inverted)
    ensures forall v :: v in m <==> LastWith(d, v) >= 0
    ensures forall v :: v in m ==> m[v] == d[LastWith(d, v)].0
  {
    if d == [] then map[]
    else
      var last := d[|d| - 1];
      Invert(d[..|d| - 1])[last.1 := last.0]
  }
}
