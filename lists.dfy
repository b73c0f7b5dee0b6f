/** Generic list operations the application performs on its record arrays:
    Array.prototype.filter, find and findIndex keyed by an identifier, replacing
    the element found for an identifier, and removing every element with an
    identifier. Records of every kind are handled through a `key` function that
    returns their identifier. */
module Lists {

  datatype Option<T> = None | Some(value: T)

  /** `b` contains the elements of `a` in the same relative order (possibly with
      other elements in between). Greedy matching is complete for this relation. */
  predicate IsSubsequence<T(==)>(a: seq<T>, b: seq<T>)
  {
    if a == [] then true
    else if b == [] then false
    else if a[0] == b[0] then IsSubsequence(a[1..], b[1..])
    else IsSubsequence(a, b[1..])
  }

  /** Array.prototype.filter: the elements of `s` that satisfy `keep`, in order. */
  function Filter<T>(s: seq<T>, keep: T -> bool): (r: seq<T>)
    ensures |r| <= |s|
    ensures forall x | x in r :: x in s && keep(x)
    ensures forall x | x in s && keep(x) :: x in r
    ensures forall x | x in s :: multiset(r)[x] == if keep(x) then multiset(s)[x] else 0
  {
    if s == [] then []
    else
      assert s == [s[0]] + s[1..];
      if keep(s[0]) then [s[0]] + Filter(s[1..], keep) else Filter(s[1..], keep)
  }

  /** Filtering never reorders: the result is a subsequence of the input. */
  lemma {:induction false} FilterIsSubsequence<T>(s: seq<T>, keep: T -> bool)
    ensures IsSubsequence(Filter(s, keep), s)
  {
    if s != [] {
      FilterIsSubsequence(s[1..], keep);
    }
  }

  /** When every element passes, filtering returns the input unchanged. */
  lemma {:induction false} FilterKeepsAll<T>(s: seq<T>, keep: T -> bool)
    requires forall x :: x in s ==> keep(x)
    ensures Filter(s, keep) == s
  {
    if s != [] {
      assert s[0] in s;
      forall x | x in s[1..] ensures keep(x) { assert x in s; }
      FilterKeepsAll(s[1..], keep);
    }
  }

  /** No two elements share an identifier. */
  predicate UniqueIds<T>(s: seq<T>, key: T -> string)
  {
    forall i, j :: 0 <= i < j < |s| ==> key(s[i]) != key(s[j])
  }

  /** Array.prototype.findIndex(x => key(x) === id): the first index holding `id`, or -1. */
  function IndexOfId<T>(s: seq<T>, key: T -> string, id: string): (r: int)
    ensures -1 <= r < |s|
    ensures r == -1 <==> forall j :: 0 <= j < |s| ==> key(s[j]) != id
    ensures r >= 0 ==> key(s[r]) == id && forall j :: 0 <= j < r ==> key(s[j]) != id
  {
    if s == [] then -1
    else if key(s[0]) == id then 0
    else
      var k := IndexOfId(s[1..], key, id);
      if k == -1 then -1 else k + 1
  }

  /** Array.prototype.find(x => key(x) === id): the first record holding `id`. */
  function FindById<T>(s: seq<T>, key: T -> string, id: string): (r: Option<T>)
    ensures r.Some? ==> r.value in s && key(r.value) == id
    ensures r.None? ==> forall x | x in s :: key(x) != id
  {
    if s == [] then None
    else if key(s[0]) == id then Some(s[0])
    else FindById(s[1..], key, id)
  }

  /** find and findIndex agree: find returns the element at the index findIndex returns. */
  lemma {:induction false} FindAgreesWithIndex<T>(s: seq<T>, key: T -> string, id: string)
    ensures FindById(s, key, id) ==
      (if IndexOfId(s, key, id) == -1 then None else Some(s[IndexOfId(s, key, id)]))
  {
    if s != [] && key(s[0]) != id {
      FindAgreesWithIndex(s[1..], key, id);
    }
  }

  /** `list[list.findIndex(x => x.id === id)] = x` guarded by `index !== -1`. */
  function ReplaceById<T>(s: seq<T>, key: T -> string, id: string, x: T): (r: seq<T>)
    ensures |r| == |s|
    ensures IndexOfId(s, key, id) == -1 ==> r == s
    ensures IndexOfId(s, key, id) != -1 ==>
      r[IndexOfId(s, key, id)] == x &&
      forall j :: 0 <= j < |s| && j != IndexOfId(s, key, id) ==> r[j] == s[j]
  {
    var index := IndexOfId(s, key, id);
    if index == -1 then s else s[index := x]
  }

  /** `list.filter(x => x.id !== id)`. */
  function RemoveById<T>(s: seq<T>, key: T -> string, id: string): (r: seq<T>)
    ensures forall x | x in r :: x in s && key(x) != id
    ensures forall x | x in s && key(x) != id :: x in r
    ensures forall x | x in s :: multiset(r)[x] == if key(x) != id then multiset(s)[x] else 0
    ensures IsSubsequence(r, s)
  {
    FilterIsSubsequence(s, x => key(x) != id);
    Filter(s, x => key(x) != id)
  }

  /** The save step of every record form: with an identifier in the hidden form
      field, the record holding it is replaced (nothing happens when none does);
      without one, the new record is appended. */
  function Upsert<T>(s: seq<T>, key: T -> string, formId: string, x: T): seq<T>
  {
    if formId != "" then ReplaceById(s, key, formId, x) else s + [x]
  }

  /** After a save, looking up the saved record's identifier yields it, provided
      the edited identifier was present or the appended one was free. */
  lemma FindAfterUpsert<T>(s: seq<T>, key: T -> string, formId: string, x: T)
    requires formId != "" ==> key(x) == formId && IndexOfId(s, key, formId) != -1
    requires formId == "" ==> IndexOfId(s, key, key(x)) == -1
    ensures FindById(Upsert(s, key, formId, x), key, key(x)) == Some(x)
  {
    if formId != "" {
      FindAfterReplace(s, key, formId, x);
    } else {
      FindAfterAppend(s, key, x);
    }
  }

  /** A save keeps identifiers unique when an edit keeps the identifier and an
      append uses a free one. */
  lemma UpsertKeepsUniqueIds<T>(s: seq<T>, key: T -> string, formId: string, x: T)
    requires UniqueIds(s, key)
    requires formId != "" ==> key(x) == formId
    requires formId == "" ==> IndexOfId(s, key, key(x)) == -1
    ensures UniqueIds(Upsert(s, key, formId, x), key)
  {
    if formId != "" {
      ReplaceKeepsUniqueIds(s, key, formId, x);
    } else {
      AppendKeepsUniqueIds(s, key, x);
    }
  }

  /** With unique identifiers, deleting removes one record when the identifier is
      present and none when it is absent. */
  lemma {:induction false} RemoveLength<T>(s: seq<T>, key: T -> string, id: string)
    requires UniqueIds(s, key)
    ensures |RemoveById(s, key, id)| == |s| - (if IndexOfId(s, key, id) == -1 then 0 else 1)
  {
    if s != [] {
      assert UniqueIds(s[1..], key) by {
        forall i, j | 0 <= i < j < |s[1..]| ensures key(s[1..][i]) != key(s[1..][j]) {
          assert s[1..][i] == s[i + 1] && s[1..][j] == s[j + 1];
        }
      }
      RemoveLength(s[1..], key, id);
      if key(s[0]) == id {
        forall j | 0 <= j < |s[1..]| ensures key(s[1..][j]) != id {
          assert s[1..][j] == s[j + 1];
        }
      }
    }
  }

  /** Removing an identifier that no record holds leaves the list as it was. */
  lemma RemoveAbsentId<T>(s: seq<T>, key: T -> string, id: string)
    requires IndexOfId(s, key, id) == -1
    ensures RemoveById(s, key, id) == s
  {
    forall x | x in s ensures key(x) != id {
      var i :| 0 <= i < |s| && s[i] == x;
    }
    FilterKeepsAll(s, x => key(x) != id);
  }

  /** After an edit, looking the identifier up yields the new record. */
  lemma {:induction false} FindAfterReplace<T>(s: seq<T>, key: T -> string, id: string, x: T)
    requires key(x) == id
    requires IndexOfId(s, key, id) != -1
    ensures FindById(ReplaceById(s, key, id, x), key, id) == Some(x)
  {
    var r := ReplaceById(s, key, id, x);
    var i := IndexOfId(s, key, id);
    IndexOfIdIsFirst(r, key, id, i);
    FindAgreesWithIndex(r, key, id);
  }

  /** After appending a record whose identifier was free, looking it up yields it. */
  lemma FindAfterAppend<T>(s: seq<T>, key: T -> string, x: T)
    requires IndexOfId(s, key, key(x)) == -1
    ensures FindById(s + [x], key, key(x)) == Some(x)
  {
    IndexOfIdIsFirst(s + [x], key, key(x), |s|);
    FindAgreesWithIndex(s + [x], key, key(x));
  }

  /** After deleting an identifier, looking it up finds nothing. */
  lemma FindAfterRemove<T>(s: seq<T>, key: T -> string, id: string)
    ensures FindById(RemoveById(s, key, id), key, id) == None
  {
    FindAgreesWithIndex(RemoveById(s, key, id), key, id);
  }

  /** findIndex returns `i` exactly when `i` holds `id` and no earlier index does. */
  lemma IndexOfIdIsFirst<T>(s: seq<T>, key: T -> string, id: string, i: int)
    requires 0 <= i < |s| && key(s[i]) == id
    requires forall j :: 0 <= j < i ==> key(s[j]) != id
    ensures IndexOfId(s, key, id) == i
  {
  }

  /** Appending a record with a fresh identifier keeps identifiers unique. */
  lemma AppendKeepsUniqueIds<T>(s: seq<T>, key: T -> string, x: T)
    requires UniqueIds(s, key)
    requires IndexOfId(s, key, key(x)) == -1
    ensures UniqueIds(s + [x], key)
  {
  }

  /** Replacing a record by one with the same identifier keeps identifiers unique. */
  lemma ReplaceKeepsUniqueIds<T>(s: seq<T>, key: T -> string, id: string, x: T)
    requires UniqueIds(s, key)
    requires key(x) == id
    ensures UniqueIds(ReplaceById(s, key, id, x), key)
  {
  }

  /** Deleting by identifier keeps identifiers unique. */
  lemma {:induction false} RemoveKeepsUniqueIds<T>(s: seq<T>, key: T -> string, id: string)
    requires UniqueIds(s, key)
    ensures UniqueIds(RemoveById(s, key, id), key)
  {
    SubsequenceKeepsUniqueIds(RemoveById(s, key, id), s, key);
  }

  lemma {:induction false} SubsequenceKeepsUniqueIds<T>(a: seq<T>, b: seq<T>, key: T -> string)
    requires IsSubsequence(a, b)
    requires UniqueIds(b, key)
    ensures UniqueIds(a, key)
  {
    if a != [] && b != [] {
      if a[0] == b[0] {
        SubsequenceKeepsUniqueIds(a[1..], b[1..], key);
        SubsequenceMembers(a[1..], b[1..]);
        forall j | 0 < j < |a| ensures key(a[0]) != key(a[j]) {
          assert a[j] == a[1..][j - 1];
          assert a[j] in a[1..];
          assert a[j] in b[1..];
          var k :| 0 <= k < |b[1..]| && b[1..][k] == a[j];
          assert b[k + 1] == a[j];
        }
      } else {
        SubsequenceKeepsUniqueIds(a, b[1..], key);
      }
    }
  }

  /** Every element of a subsequence is an element of the whole. */
  lemma {:induction false} SubsequenceMembers<T>(a: seq<T>, b: seq<T>)
    requires IsSubsequence(a, b)
    ensures forall x :: x in a ==> x in b
  {
    if a != [] && b != [] {
      if a[0] == b[0] {
        SubsequenceMembers(a[1..], b[1..]);
        forall x | x in a ensures x in b {
          if x != a[0] { assert x in a[1..]; assert x in b[1..]; }
        }
      } else {
        SubsequenceMembers(a, b[1..]);
      }
    }
  }
}
