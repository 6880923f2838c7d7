/** The diary's state transition: a pure function from the current list of
    entries and an action to the next list. Entries are kept newest first. */
module DiaryReducer {
  import opened EntryId

  /** One diary record. createdDate is a millisecond timestamp supplied by the caller. */
  datatype Entry = Entry(id: IdVal, createdDate: int, emotionId: int, content: string)

  /** The actions the reducer is dispatched. Other stands for any action
      whose type is none of "CREATE", "UPDATE" and "DELETE"; the reducer
      never looks at such an action's fields. */
  datatype Action =
    | Create(data: Entry)
    | Update(data: Entry)
    | Delete(id: IdVal)
    | Other

  /** state.map(item => String(item.id) === String(e.id) ? e : item) */
  function ReplaceMatching(s: seq<Entry>, e: Entry): (r: seq<Entry>)
    ensures |r| == |s|
    ensures forall i :: 0 <= i < |s| ==> r[i] == if SameId(s[i].id, e.id) then e else s[i]
  {
    if s == [] then []
    else [if SameId(s[0].id, e.id) then e else s[0]] + ReplaceMatching(s[1..], e)
  }

  /** state.filter(item => String(item.id) !== String(id)) */
  function RemoveMatching(s: seq<Entry>, id: IdVal): (r: seq<Entry>)
    ensures |r| <= |s|
    ensures forall x :: x in r <==> x in s && !SameId(x.id, id)
  {
    if s == [] then []
    else if SameId(s[0].id, id) then RemoveMatching(s[1..], id)
    else [s[0]] + RemoveMatching(s[1..], id)
  }

  /** The reducer: CREATE prepends, UPDATE replaces every entry with an equal id,
      DELETE drops every entry with an equal id, anything else changes nothing. */
  function Reducer(state: seq<Entry>, action: Action): (next: seq<Entry>)
    ensures action.Create? ==> |next| == |state| + 1 && next[0] == action.data && next[1..] == state
    ensures action.Update? ==> |next| == |state|
    ensures action.Update? ==> forall i :: 0 <= i < |state| ==>
      next[i] == if SameId(state[i].id, action.data.id) then action.data else state[i]
    ensures action.Delete? ==> forall x :: x in next <==> x in state && !SameId(x.id, action.id)
    ensures action.Other? ==> next == state
  {
    match action
    case Create(e) => [e] + state
    case Update(e) => ReplaceMatching(state, e)
    case Delete(id) => RemoveMatching(state, id)
    case Other => state
  }

  /** Number of entries whose id equals id. */
  function CountMatching(s: seq<Entry>, id: IdVal): (n: nat)
    ensures n <= |s|
    ensures n == 0 <==> forall i :: 0 <= i < |s| ==> !SameId(s[i].id, id)
  {
    if s == [] then 0
    else (if SameId(s[0].id, id) then 1 else 0) + CountMatching(s[1..], id)
  }

  /** No two entries have the same id (compared as String(id)). */
  predicate UniqueIds(s: seq<Entry>) {
    forall i, j :: 0 <= i < j < |s| ==> Canon(s[i].id) != Canon(s[j].id)
  }

  // ----- UPDATE -----

  /** UPDATE with an id no entry has returns the list as it was. */
  lemma UpdateUnmatchedIsNoOp(s: seq<Entry>, e: Entry)
    requires forall i :: 0 <= i < |s| ==> !SameId(s[i].id, e.id)
    ensures Reducer(s, Update(e)) == s
  {
  }

  /** With unique ids, UPDATE changes exactly the one entry with the payload's id. */
  lemma UpdateUniqueIsPointUpdate(s: seq<Entry>, e: Entry, k: int)
    requires UniqueIds(s)
    requires 0 <= k < |s| && SameId(s[k].id, e.id)
    ensures Reducer(s, Update(e)) == s[k := e]
  {
  }

  /** UPDATE keeps every entry's id, as String(id) sees it, at every index. */
  lemma UpdateKeepsIds(s: seq<Entry>, e: Entry)
    ensures var r := Reducer(s, Update(e));
      |r| == |s| && forall i :: 0 <= i < |s| ==> Canon(r[i].id) == Canon(s[i].id)
  {
  }

  /** Dispatching the same UPDATE twice is the same as once. */
  lemma UpdateIdempotent(s: seq<Entry>, e: Entry)
    ensures Reducer(Reducer(s, Update(e)), Update(e)) == Reducer(s, Update(e))
  {
  }

  // ----- DELETE -----

  /** DELETE drops exactly as many entries as carry the id. */
  lemma {:induction false} DeleteCountsMatches(s: seq<Entry>, id: IdVal)
    ensures |Reducer(s, Delete(id))| == |s| - CountMatching(s, id)
  {
    if s != [] {
      DeleteCountsMatches(s[1..], id);
    }
  }

  /** With unique ids there is at most one entry per id. */
  lemma {:induction false} UniqueCountAtMostOne(s: seq<Entry>, id: IdVal)
    requires UniqueIds(s)
    ensures CountMatching(s, id) <= 1
  {
    if s != [] {
      assert UniqueIds(s[1..]) by {
        forall i, j | 0 <= i < j < |s[1..]|
          ensures Canon(s[1..][i].id) != Canon(s[1..][j].id)
        {
          assert s[1..][i] == s[i + 1] && s[1..][j] == s[j + 1];
        }
      }
      UniqueCountAtMostOne(s[1..], id);
      if SameId(s[0].id, id) {
        forall i | 0 <= i < |s[1..]|
          ensures !SameId(s[1..][i].id, id)
        {
          assert s[1..][i] == s[i + 1];
        }
      }
    }
  }

  /** DELETE of an id that exactly one entry carries shortens the list by one. */
  lemma DeleteUniqueShrinksByOne(s: seq<Entry>, id: IdVal, k: int)
    requires UniqueIds(s)
    requires 0 <= k < |s| && SameId(s[k].id, id)
    ensures |Reducer(s, Delete(id))| == |s| - 1
  {
    DeleteCountsMatches(s, id);
    UniqueCountAtMostOne(s, id);
  }

  /** DELETE of an id no entry has returns the list as it was. */
  lemma {:induction false} DeleteUnmatchedIsNoOp(s: seq<Entry>, id: IdVal)
    requires forall i :: 0 <= i < |s| ==> !SameId(s[i].id, id)
    ensures Reducer(s, Delete(id)) == s
  {
    if s != [] {
      var t := s[1..];
      assert !SameId(s[0].id, id);
      forall i | 0 <= i < |t|
        ensures !SameId(t[i].id, id)
      {
        assert t[i] == s[i + 1];
      }
      DeleteUnmatchedIsNoOp(t, id);
      assert RemoveMatching(s, id) == [s[0]] + RemoveMatching(t, id);
      assert s == [s[0]] + t;
    }
  }

  /** Dispatching the same DELETE twice is the same as once. */
  lemma DeleteIdempotent(s: seq<Entry>, id: IdVal)
    ensures Reducer(Reducer(s, Delete(id)), Delete(id)) == Reducer(s, Delete(id))
  {
    var r := Reducer(s, Delete(id));
    assert forall i :: 0 <= i < |r| ==> r[i] in r;
    DeleteUnmatchedIsNoOp(r, id);
  }

  /** DELETE works piecewise: it keeps the relative order of what survives. */
  lemma {:induction false} DeleteDistributes(s: seq<Entry>, t: seq<Entry>, id: IdVal)
    ensures Reducer(s + t, Delete(id)) == Reducer(s, Delete(id)) + Reducer(t, Delete(id))
  {
    if s == [] {
      assert s + t == t;
    } else {
      assert (s + t)[0] == s[0] && (s + t)[1..] == s[1..] + t;
      DeleteDistributes(s[1..], t, id);
      if SameId(s[0].id, id) {
        assert RemoveMatching(s + t, id) == RemoveMatching(s[1..] + t, id);
      } else {
        assert RemoveMatching(s + t, id) == [s[0]] + RemoveMatching(s[1..] + t, id);
      }
    }
  }

  /** Ascending indices of the entries of s, from index i on, whose id differs from id. */
  function KeptIndices(s: seq<Entry>, id: IdVal, i: nat): (ix: seq<nat>)
    requires i <= |s|
    ensures forall k :: 0 <= k < |ix| ==> i <= ix[k] < |s| && !SameId(s[ix[k]].id, id)
    ensures forall k, l :: 0 <= k < l < |ix| ==> ix[k] < ix[l]
    ensures forall j :: i <= j < |s| && !SameId(s[j].id, id) ==> j in ix
    decreases |s| - i
  {
    if i == |s| then []
    else if SameId(s[i].id, id) then KeptIndices(s, id, i + 1)
    else [i] + KeptIndices(s, id, i + 1)
  }

  /** The result of DELETE is exactly the non-matching entries of the input,
      picked at ascending indices, i.e. in their original relative order. */
  lemma DeleteIsOrderedSelection(s: seq<Entry>, id: IdVal)
    ensures var r := Reducer(s, Delete(id));
      var ix := KeptIndices(s, id, 0);
      |r| == |ix| && forall k :: 0 <= k < |r| ==> r[k] == s[ix[k]]
  {
    SuffixSelection(s, id, 0);
    assert s[0..] == s;
  }

  lemma {:induction false} SuffixSelection(s: seq<Entry>, id: IdVal, i: nat)
    requires i <= |s|
    ensures var r := RemoveMatching(s[i..], id);
      var ix := KeptIndices(s, id, i);
      |r| == |ix| && forall k :: 0 <= k < |r| ==> r[k] == s[ix[k]]
    decreases |s| - i
  {
    if i < |s| {
      SuffixSelection(s, id, i + 1);
      var tail := s[i..];
      assert tail[0] == s[i] && tail[1..] == s[i + 1..];
      var r', ix' := RemoveMatching(s[i + 1..], id), KeptIndices(s, id, i + 1);
      var r, ix := RemoveMatching(tail, id), KeptIndices(s, id, i);
      if SameId(s[i].id, id) {
        assert r == r' && ix == ix';
      } else {
        assert r == [s[i]] + r' && ix == [i] + ix';
        SelectionCons(s, r', ix', i);
      }
    }
  }

  /** Putting s[i] in front of a selection of s by indices ix' is the selection by [i] + ix'. */
  lemma SelectionCons(s: seq<Entry>, r': seq<Entry>, ix': seq<nat>, i: nat)
    requires i < |s| && |r'| == |ix'|
    requires forall k :: 0 <= k < |ix'| ==> ix'[k] < |s| && r'[k] == s[ix'[k]]
    ensures var r, ix := [s[i]] + r', [i] + ix';
      |r| == |ix| && forall k :: 0 <= k < |r| ==> r[k] == s[ix[k]]
  {
  }

  /** String(...) comparison makes DELETE independent of how its id is written. */
  lemma {:induction false} DeleteRepresentationIndependent(s: seq<Entry>, a: IdVal, b: IdVal)
    requires SameId(a, b)
    ensures Reducer(s, Delete(a)) == Reducer(s, Delete(b))
  {
    if s != [] {
      DeleteRepresentationIndependent(s[1..], a, b);
    }
  }

  /** DELETE with the text "1" removes an entry stored with the number 1,
      and UPDATE with the text "1" replaces it. */
  lemma TextOneMatchesNumberOne(s: seq<Entry>, k: int, e: Entry)
    requires 0 <= k < |s| && s[k].id == Num(1)
    requires e.id == Str("1")
    ensures s[k] !in Reducer(s, Delete(Str("1")))
    ensures Reducer(s, Delete(Str("1"))) == Reducer(s, Delete(Num(1)))
    ensures Reducer(s, Update(e))[k] == e
  {
    NumOneIsTextOne();
    DeleteRepresentationIndependent(s, Str("1"), Num(1));
  }
}
