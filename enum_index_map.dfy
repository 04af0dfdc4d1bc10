/**
 The bidirectional index map that `getEnum` resolves to: for an enum whose
 members are declared as m0, m1, ..., m(N-1), the object
 `{0: m0, ..., N-1: m(N-1), m0: 0, ..., m(N-1): N-1}`.

 The source builds it in two steps, kept apart here:
 - `members.flatMap((m, i) => [[i, m], [m, i]])` is `Entries`;
 - `Object.fromEntries(...)` is `FromEntries`, which stores the entries in
   order, so that a later entry overwrites an earlier one with the same key.
 */
module EnumIndexMap {

  /** A key of the resolved object: a member's position or a member's name.
      In the source both become property names of one object; a Solidity
      identifier never starts with a digit, so the two kinds never meet. */
  datatype Key = IndexKey(index: nat) | NameKey(name: string)

  /** A value of the resolved object: a member's position or a member's name. */
  datatype Value = IndexVal(index: nat) | NameVal(name: string)

  type EnumMap = map<Key, Value>

  /** The key under which a value is itself stored: the partner of `v`. */
  function KeyOf(v: Value): Key {
    match v
    case IndexVal(i) => IndexKey(i)
    case NameVal(n) => NameKey(n)
  }

  /** Member names are pairwise distinct (the Solidity compiler rejects an
      enum that declares the same member twice). */
  predicate Distinct(members: seq<string>) {
    forall i, j :: 0 <= i < j < |members| ==> members[i] != members[j]
  }

  /** The flatMap step: two entries per member, in declaration order,
      first position-to-name, then name-to-position. */
  function Entries(members: seq<string>): (es: seq<(Key, Value)>)
    ensures |es| == 2 * |members|
  {
    if members == [] then []
    else
      var n := |members| - 1;
      Entries(members[..n]) + [(IndexKey(n), NameVal(members[n])), (NameKey(members[n]), IndexVal(n))]
  }

  /** The entry at position j of `Entries(members)`. */
  lemma {:induction false} EntryAt(members: seq<string>, j: nat)
    requires j < 2 * |members|
    ensures Entries(members)[j] ==
      if j % 2 == 0 then (IndexKey(j / 2), NameVal(members[j / 2]))
      else (NameKey(members[j / 2]), IndexVal(j / 2))
  {
    var n := |members| - 1;
    var prefix := members[..n];
    if j < 2 * n {
      EntryAt(prefix, j);
      assert prefix[j / 2] == members[j / 2];
    }
  }

  /** `es[j]` is the last entry whose key is `es[j].0`. */
  predicate LastForKey<K(==), V>(es: seq<(K, V)>, j: int) {
    0 <= j < |es| && forall j' :: j < j' < |es| ==> es[j'].0 != es[j].0
  }

  /** `Object.fromEntries`: the key of every entry is present, and it holds
      the value of the last entry with that key. */
  function FromEntries<K, V>(es: seq<(K, V)>): (m: map<K, V>)
    ensures forall j :: 0 <= j < |es| ==> es[j].0 in m
    ensures forall j :: LastForKey(es, j) ==> m[es[j].0] == es[j].1
  {
    if es == [] then map[]
    else
      var last := es[|es| - 1];
      var m' := FromEntries(es[..|es| - 1]);
      assert forall j :: LastForKey(es, j) && j < |es| - 1 ==> LastForKey(es[..|es| - 1], j);
      m'[last.0 := last.1]
  }

  /** `Object.fromEntries` adds no key that is not the key of an entry. */
  lemma {:induction false} FromEntriesKeys<K, V>(es: seq<(K, V)>, k: K)
    requires k in FromEntries(es)
    ensures exists j :: 0 <= j < |es| && es[j].0 == k
  {
    var n := |es| - 1;
    if k != es[n].0 {
      FromEntriesKeys(es[..n], k);
      var j :| 0 <= j < n && es[..n][j].0 == k;
      assert es[j].0 == k;
    }
  }

  /** Entry 2i of `Entries(members)` writes position i, and no later entry
      writes that key again. */
  lemma {:induction false} PositionEntryIsLast(members: seq<string>, i: nat)
    requires i < |members|
    ensures Entries(members)[2 * i] == (IndexKey(i), NameVal(members[i]))
    ensures LastForKey(Entries(members), 2 * i)
  {
    var es := Entries(members);
    EntryAt(members, 2 * i);
    forall j' | 2 * i < j' < |es| ensures es[j'].0 != IndexKey(i) {
      EntryAt(members, j');
    }
  }

  /** Every entry writing a position is the last one for its key. */
  lemma {:induction false} PositionEntriesAreLast(members: seq<string>)
    ensures forall i :: 0 <= i < |members| ==>
      Entries(members)[2 * i] == (IndexKey(i), NameVal(members[i])) && LastForKey(Entries(members), 2 * i)
  {
    forall i | 0 <= i < |members|
      ensures Entries(members)[2 * i] == (IndexKey(i), NameVal(members[i])) && LastForKey(Entries(members), 2 * i)
    {
      PositionEntryIsLast(members, i);
    }
  }

  /** The object `getEnum` resolves to for an enum with these members.
      Position to name: every position i below N maps to the i-th declared
      member. */
  function IndexMap(members: seq<string>): (m: EnumMap)
    ensures forall i :: 0 <= i < |members| ==> IndexKey(i) in m && m[IndexKey(i)] == NameVal(members[i])
  {
    PositionEntriesAreLast(members);
    FromEntries(Entries(members))
  }

  /** Name to position when a name is declared more than once: the name maps
      to the position of its last declaration, since that entry is written
      last. */
  lemma {:induction false} NameToIndexLastWins(members: seq<string>, i: nat)
    requires i < |members|
    requires forall i' :: i < i' < |members| ==> members[i'] != members[i]
    ensures NameKey(members[i]) in IndexMap(members)
    ensures IndexMap(members)[NameKey(members[i])] == IndexVal(i)
  {
    var es := Entries(members);
    EntryAt(members, 2 * i + 1);
    forall j' | 2 * i + 1 < j' < |es| ensures es[j'].0 != NameKey(members[i]) {
      EntryAt(members, j');
    }
    assert LastForKey(es, 2 * i + 1);
    assert FromEntries(es)[es[2 * i + 1].0] == es[2 * i + 1].1;
  }

  /** Name to position: each declared member maps to its own position. */
  lemma {:induction false} NameToIndex(members: seq<string>, i: nat)
    requires Distinct(members)
    requires i < |members|
    ensures NameKey(members[i]) in IndexMap(members)
    ensures IndexMap(members)[NameKey(members[i])] == IndexVal(i)
  {
    NameToIndexLastWins(members, i);
  }

  /** Every key of the map is a position below N or a declared name. */
  lemma {:induction false} KeyIsPositionOrName(members: seq<string>, k: Key)
    requires k in IndexMap(members)
    ensures k.IndexKey? ==> k.index < |members|
    ensures k.NameKey? ==> k.name in members
  {
    var es := Entries(members);
    FromEntriesKeys(es, k);
    var j :| 0 <= j < |es| && es[j].0 == k;
    EntryAt(members, j);
  }

  /** Every declared name is a key of the map. */
  lemma {:induction false} NameIsKey(members: seq<string>, name: string)
    requires name in members
    ensures NameKey(name) in IndexMap(members)
  {
    var i :| 0 <= i < |members| && members[i] == name;
    var es := Entries(members);
    EntryAt(members, 2 * i + 1);
    assert es[2 * i + 1].0 == NameKey(name);
    assert es[2 * i + 1].0 in FromEntries(es);
  }

  /** No extra keys: the keys are exactly the positions and the names. */
  lemma {:induction false} Keys(members: seq<string>)
    ensures IndexMap(members).Keys ==
      (set i | 0 <= i < |members| :: IndexKey(i)) + (set n | n in members :: NameKey(n))
  {
    var positions := set i | 0 <= i < |members| :: IndexKey(i);
    var names := set n | n in members :: NameKey(n);
    forall k | k in IndexMap(members) ensures k in positions + names {
      KeyIsPositionOrName(members, k);
      if k.IndexKey? {
        assert k in positions;
      } else {
        assert k in names;
      }
    }
    forall k | k in positions + names ensures k in IndexMap(members) {
      if k.NameKey? {
        NameIsKey(members, k.name);
      }
    }
  }

  /** Adding one member adds its two entries on top of the map so far. */
  lemma {:induction false} IndexMapSnoc(members: seq<string>, x: string)
    ensures IndexMap(members + [x]) ==
      IndexMap(members)[IndexKey(|members|) := NameVal(x)][NameKey(x) := IndexVal(|members|)]
  {
    var n := |members|;
    var a, b := (IndexKey(n), NameVal(x)), (NameKey(x), IndexVal(n));
    assert (members + [x])[..n] == members;
    var es := Entries(members);
    assert Entries(members + [x]) == es + [a, b];
    assert (es + [a, b])[..|es| + 1] == es + [a];
    assert (es + [a])[..|es|] == es;
    assert FromEntries(es + [a]) == FromEntries(es)[a.0 := a.1];
    assert FromEntries(es + [a, b]) == FromEntries(es + [a])[b.0 := b.1];
  }

  /** Exactly two entries per member when the names are distinct. */
  lemma {:induction false} Size(members: seq<string>)
    requires Distinct(members)
    ensures |IndexMap(members)| == 2 * |members|
  {
    if members != [] {
      var n := |members| - 1;
      var prefix, x := members[..n], members[n];
      assert members == prefix + [x];
      assert Distinct(prefix);
      Size(prefix);
      Keys(prefix);
      assert x !in prefix;
      assert NameKey(x) !in IndexMap(prefix);
      assert IndexKey(n) !in IndexMap(prefix);
      IndexMapSnoc(prefix, x);
    }
  }

  /** The map is its own inverse: following a value back as a key returns
      the key it was reached from (position to name to position, and name to
      position to name). */
  lemma {:induction false} RoundTrip(members: seq<string>, k: Key)
    requires Distinct(members)
    requires k in IndexMap(members)
    ensures KeyOf(IndexMap(members)[k]) in IndexMap(members)
    ensures KeyOf(IndexMap(members)[KeyOf(IndexMap(members)[k])]) == k
  {
    Keys(members);
    if k.IndexKey? {
      NameToIndex(members, k.index);
    } else {
      var i :| 0 <= i < |members| && members[i] == k.name;
      NameToIndex(members, i);
    }
  }

  /** The enum `Status { Pending, Active, Closed }`. */
  lemma {:induction false} StatusExample()
    ensures IndexMap(["Pending", "Active", "Closed"]) == map[
      IndexKey(0) := NameVal("Pending"), IndexKey(1) := NameVal("Active"), IndexKey(2) := NameVal("Closed"),
      NameKey("Pending") := IndexVal(0), NameKey("Active") := IndexVal(1), NameKey("Closed") := IndexVal(2)]
  {
    var s := ["Pending", "Active", "Closed"];
    assert s[..2] == ["Pending", "Active"];
    assert s[..2][..1] == ["Pending"];
    assert s[..2][..1][..0] == [];
    IndexMapSnoc([], "Pending");
    IndexMapSnoc(["Pending"], "Active");
    IndexMapSnoc(["Pending", "Active"], "Closed");
    assert [] + ["Pending"] == ["Pending"];
    assert ["Pending"] + ["Active"] == ["Pending", "Active"];
    assert ["Pending", "Active"] + ["Closed"] == s;
  }
}
