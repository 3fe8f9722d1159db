/**
  The in-memory product collection of the service: an ordered sequence of
  `{id, name}` records, and the two lookups the handlers use on it —
  `Find` (the first matching record, as `Array.prototype.find`) and
  `FindIndex` (the position of the first match, or -1, as
  `Array.prototype.findIndex`). Ids are compared by exact string equality
  and are NOT assumed to be unique: every lookup is first-match.
 */
module ProductStore {

  datatype Option<+T> = None | Some(value: T)

  /** One stored record. Ids are opaque strings (a stringified timestamp in the service). */
  datatype Product = Product(id: string, name: string)

  /** The collection, in insertion order. */
  type Store = seq<Product>

  /** The empty collection the service starts with. */
  const Empty: Store := []

  /** True iff some record of `s` carries `id`. */
  predicate HasId(s: Store, id: string) {
    exists i :: 0 <= i < |s| && s[i].id == id
  }

  /** `i` is the position of the first record of `s` whose id is `id`. */
  predicate IsFirstMatch(s: Store, id: string, i: int) {
    && 0 <= i < |s|
    && s[i].id == id
    && forall j :: 0 <= j < i ==> s[j].id != id
  }

  /** Number of records of `s` that carry `id`. */
  function CountId(s: Store, id: string): nat {
    if |s| == 0 then 0
    else (if s[0].id == id then 1 else 0) + CountId(s[1..], id)
  }

  /** Every record has a non-empty name (the create handler never stores an empty one). */
  predicate NamesPresent(s: Store) {
    forall i :: 0 <= i < |s| ==> s[i].name != ""
  }

  /** No two records share an id. */
  predicate UniqueIds(s: Store) {
    forall i, j :: 0 <= i < j < |s| ==> s[i].id != s[j].id
  }

  /** Position of the first record with the given id, or -1 when there is none. */
  function FindIndex(s: Store, id: string): (r: int)
    ensures -1 <= r < |s|
    ensures r == -1 <==> !HasId(s, id)
    ensures r != -1 ==> IsFirstMatch(s, id, r)
  {
    if |s| == 0 then -1
    else if s[0].id == id then 0
    else
      var k := FindIndex(s[1..], id);
      if k == -1 then
        assert forall i :: 1 <= i < |s| ==> s[i] == s[1..][i - 1];
        -1
      else
        assert s[k + 1] == s[1..][k];
        k + 1
  }

  /** The first record with the given id, if any. */
  function Find(s: Store, id: string): (r: Option<Product>)
    ensures r.None? <==> !HasId(s, id)
    ensures r.Some? ==> exists i :: IsFirstMatch(s, id, i) && r.value == s[i]
  {
    if |s| == 0 then None
    else if s[0].id == id then
      assert IsFirstMatch(s, id, 0);
      Some(s[0])
    else
      var r := Find(s[1..], id);
      if r.None? then
        assert forall i :: 1 <= i < |s| ==> s[i] == s[1..][i - 1];
        None
      else
        var i :| IsFirstMatch(s[1..], id, i) && r.value == s[1..][i];
        assert IsFirstMatch(s, id, i + 1);
        r
  }

  /** The first match is unique: two positions that are both "first" coincide. */
  lemma FirstMatchUnique(s: Store, id: string, i: int, k: int)
    requires IsFirstMatch(s, id, i) && IsFirstMatch(s, id, k)
    ensures i == k
  {
  }

  /** `find` and `findIndex` agree: `find` returns exactly the record at the
      position `findIndex` reports, and nothing when it reports -1. */
  lemma FindAgreesWithFindIndex(s: Store, id: string)
    ensures FindIndex(s, id) == -1 ==> Find(s, id) == None
    ensures FindIndex(s, id) != -1 ==> Find(s, id) == Some(s[FindIndex(s, id)])
  {
  }

  /** The id is counted at least once exactly when some record carries it. */
  lemma {:induction false} CountIdPositive(s: Store, id: string)
    ensures CountId(s, id) > 0 <==> HasId(s, id)
  {
    if |s| > 0 {
      CountIdPositive(s[1..], id);
      if s[0].id != id && HasId(s, id) {
        var i :| 0 <= i < |s| && s[i].id == id;
        assert s[1..][i - 1].id == id;
      }
    }
  }

  /** Counting occurrences distributes over concatenation. */
  lemma {:induction false} CountIdAppend(a: Store, b: Store, id: string)
    ensures CountId(a + b, id) == CountId(a, id) + CountId(b, id)
  {
    if |a| > 0 {
      assert (a + b)[1..] == a[1..] + b;
      CountIdAppend(a[1..], b, id);
    } else {
      assert a + b == b;
    }
  }

  /** Removing the record at `k` removes one occurrence of its id. */
  lemma CountIdRemoveAt(s: Store, k: int, id: string)
    requires 0 <= k < |s|
    ensures CountId(s[..k] + s[k + 1..], id) + (if s[k].id == id then 1 else 0) == CountId(s, id)
  {
    assert s == s[..k] + [s[k]] + s[k + 1..];
    CountIdAppend(s[..k] + [s[k]], s[k + 1..], id);
    CountIdAppend(s[..k], [s[k]], id);
    CountIdAppend(s[..k], s[k + 1..], id);
  }

  /** Removing the record at `k` removes exactly that record from the multiset. */
  lemma MultisetRemoveAt(s: Store, k: int)
    requires 0 <= k < |s|
    ensures multiset(s[..k] + s[k + 1..]) + multiset{s[k]} == multiset(s)
  {
    assert s == s[..k] + [s[k]] + s[k + 1..];
  }

  /** In a store without repeated ids each id occurs at most once. */
  lemma {:induction false} UniqueIdsCountAtMostOne(s: Store, id: string)
    requires UniqueIds(s)
    ensures CountId(s, id) <= 1
  {
    if |s| > 0 {
      assert UniqueIds(s[1..]) by {
        forall i, j | 0 <= i < j < |s| - 1 ensures s[1..][i].id != s[1..][j].id {
          assert s[1..][i] == s[i + 1] && s[1..][j] == s[j + 1];
        }
      }
      UniqueIdsCountAtMostOne(s[1..], id);
      if s[0].id == id {
        forall i | 0 <= i < |s| - 1 ensures s[1..][i].id != id {
          assert s[1..][i] == s[i + 1];
        }
        CountIdPositive(s[1..], id);
      }
    }
  }
}
