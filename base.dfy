/** Generic building blocks shared by the model: an optional value, and the few
    operations on a table (a sequence of rows in rowid order) that the SQL queries
    of the bot use: filter, first match, and the ordering of primary keys. */
module Base {

  datatype Option<+T> = None | Some(value: T)

  /** The rows of `s` satisfying `p`, in their original order (`.filter_by(...).all()`). */
  function Keep<T>(s: seq<T>, p: T -> bool): (r: seq<T>)
    ensures |r| <= |s|
    ensures forall i :: 0 <= i < |r| ==> r[i] in s && p(r[i])
    ensures forall i :: 0 <= i < |s| && p(s[i]) ==> s[i] in r
  {
    if s == [] then [] else (if p(s[0]) then [s[0]] else []) + Keep(s[1..], p)
  }

  lemma {:induction false} KeepAppend<T>(s: seq<T>, t: seq<T>, p: T -> bool)
    ensures Keep(s + t, p) == Keep(s, p) + Keep(t, p)
  {
    if s == [] {
      assert s + t == t;
    } else {
      assert (s + t)[1..] == s[1..] + t;
      KeepAppend(s[1..], t, p);
    }
  }

  lemma KeepOne<T>(x: T, p: T -> bool)
    ensures Keep([x], p) == if p(x) then [x] else []
  {
    assert [x][1..] == [];
  }

  /** Keeping every row leaves the table as it is. */
  lemma {:induction false} KeepAll<T>(s: seq<T>, p: T -> bool)
    requires forall i :: 0 <= i < |s| ==> p(s[i])
    ensures Keep(s, p) == s
  {
    if s != [] {
      KeepAll(s[1..], p);
    }
  }

  /** Index of the first row satisfying `p` (`.filter_by(...).first()`). */
  function FindFirst<T>(s: seq<T>, p: T -> bool): (r: Option<nat>)
    ensures r.Some? ==> r.value < |s| && p(s[r.value])
    ensures r.Some? ==> forall j :: 0 <= j < r.value ==> !p(s[j])
    ensures r.None? <==> forall i :: 0 <= i < |s| ==> !p(s[i])
  {
    if s == [] then None
    else if p(s[0]) then Some(0)
    else match FindFirst(s[1..], p)
      case None => None
      case Some(k) => Some(k + 1)
  }

  /** Removing the row at index `i` (`session.delete(row)`). */
  function RemoveAt<T>(s: seq<T>, i: nat): (r: seq<T>)
    requires i < |s|
    ensures |r| == |s| - 1
    ensures forall j :: 0 <= j < i ==> r[j] == s[j]
    ensures forall j :: i <= j < |r| ==> r[j] == s[j + 1]
  {
    s[..i] + s[i + 1..]
  }

  /** Primary keys strictly increase along the table and stay below `bound`,
      the next key to be handed out: every key is unique, and a fresh one is
      never in use. */
  ghost predicate KeyedBelow<T>(s: seq<T>, key: T -> nat, bound: nat)
  {
    && (forall i, j :: 0 <= i < j < |s| ==> key(s[i]) < key(s[j]))
    && (forall i :: 0 <= i < |s| ==> key(s[i]) < bound)
  }

  lemma KeyedAppend<T>(s: seq<T>, key: T -> nat, bound: nat, x: T)
    requires KeyedBelow(s, key, bound)
    requires key(x) == bound
    ensures KeyedBelow(s + [x], key, bound + 1)
  {
  }

  lemma KeyedGrow<T>(s: seq<T>, key: T -> nat, bound: nat, bound': nat)
    requires KeyedBelow(s, key, bound) && bound <= bound'
    ensures KeyedBelow(s, key, bound')
  {
  }

  lemma {:induction false} KeyedKeep<T>(s: seq<T>, key: T -> nat, bound: nat, p: T -> bool)
    requires KeyedBelow(s, key, bound)
    ensures KeyedBelow(Keep(s, p), key, bound)
  {
    if s != [] {
      KeyedKeep(s[1..], key, bound, p);
      var rest := Keep(s[1..], p);
      if p(s[0]) {
        forall m | 0 <= m < |rest| ensures key(s[0]) < key(rest[m]) {
          var k :| 1 <= k < |s| && s[k] == rest[m];
        }
        KeyedCons(s[0], rest, key, bound);
      }
    }
  }

  lemma KeyedCons<T>(x: T, s: seq<T>, key: T -> nat, bound: nat)
    requires KeyedBelow(s, key, bound) && key(x) < bound
    requires forall m :: 0 <= m < |s| ==> key(x) < key(s[m])
    ensures KeyedBelow([x] + s, key, bound)
  {
    var r := [x] + s;
    forall i, j | 0 <= i < j < |r| ensures key(r[i]) < key(r[j]) {
      assert r[j] == s[j - 1];
      if i > 0 {
        assert r[i] == s[i - 1];
      }
    }
  }

  lemma KeyedRemoveAt<T>(s: seq<T>, key: T -> nat, bound: nat, i: nat)
    requires KeyedBelow(s, key, bound) && i < |s|
    ensures KeyedBelow(RemoveAt(s, i), key, bound)
  {
    var r := RemoveAt(s, i);
    forall a, b | 0 <= a < b < |r| ensures key(r[a]) < key(r[b]) {
      var a' := if a < i then a else a + 1;
      var b' := if b < i then b else b + 1;
      assert r[a] == s[a'] && r[b] == s[b'];
    }
  }

  /** Two tables whose rows carry the same keys in the same order. */
  ghost predicate SameKeys<T>(s: seq<T>, t: seq<T>, key: T -> nat)
  {
    |s| == |t| && forall i :: 0 <= i < |s| ==> key(s[i]) == key(t[i])
  }

  lemma KeyedSameKeys<T>(s: seq<T>, t: seq<T>, key: T -> nat, bound: nat)
    requires KeyedBelow(s, key, bound) && SameKeys(s, t, key)
    ensures KeyedBelow(t, key, bound)
  {
  }

  /** In a keyed table at most one row carries a given key. */
  lemma KeyedUnique<T>(s: seq<T>, key: T -> nat, bound: nat, i: nat, j: nat)
    requires KeyedBelow(s, key, bound) && i < |s| && j < |s| && key(s[i]) == key(s[j])
    ensures i == j
  {
  }
}
