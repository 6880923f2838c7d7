/** The diary store held by the App component: the list of entries that the
    reducer transforms, the id counter (idRef) and the three intents
    onCreate, onUpdate and onDelete that consumers call. */
module DiaryApp {
  import opened EntryId
  import opened DiaryReducer

  /** The two entries the diary starts with; t1 and t2 are the clock readings
      taken when each of them is built. Their ids 1 and 2 are distinct and
      below the counter's first value. */
  function MockData(t1: int, t2: int): (s: seq<Entry>)
    ensures |s| == 2 && IdNumber(s[0].id) == Some(1) && IdNumber(s[1].id) == Some(2)
    ensures StoreInv(s, FirstFreeId)
  {
    NumIdNumber(1);
    NumIdNumber(2);
    [Entry(Num(1), t1, 1, "1번 일기 내용"), Entry(Num(2), t2, 2, "2번 일기 내용")]
  }

  /** The counter's first value, one past the largest seed id. */
  const FirstFreeId: int := 3

  /** v, compared as String(v), is String(k) for a whole number k below bound. */
  predicate IdBelow(v: IdVal, bound: int) {
    match IdNumber(v)
    case Some(k) => k < bound && Canon(v) == IntText(k)
    case None => false
  }

  /** What the counter guarantees about the list: ids are unique and every id
      is a number the counter has already passed. */
  predicate StoreInv(s: seq<Entry>, nextId: int) {
    UniqueIds(s) && forall i :: 0 <= i < |s| ==> IdBelow(s[i].id, nextId)
  }

  /** A CREATE whose id is the counter's current value keeps the invariant
      once the counter has moved on by one. */
  lemma CreateKeepsInv(s: seq<Entry>, nextId: int, e: Entry)
    requires StoreInv(s, nextId)
    requires e.id == Num(nextId)
    ensures StoreInv(Reducer(s, Create(e)), nextId + 1)
  {
    NumIdNumber(nextId);
    var r := Reducer(s, Create(e));
    forall i, j | 0 <= i < j < |r|
      ensures Canon(r[i].id) != Canon(r[j].id)
    {
      assert r[j] == s[j - 1];
      if i == 0 {
        assert IdBelow(s[j - 1].id, nextId);
        assert IdNumber(r[j].id) != IdNumber(e.id);
      } else {
        assert r[i] == s[i - 1];
      }
    }
    forall i | 0 <= i < |r|
      ensures IdBelow(r[i].id, nextId + 1)
    {
      if i > 0 {
        assert r[i] == s[i - 1];
      }
    }
  }

  /** Any UPDATE keeps the invariant: a replaced entry keeps its id's text. */
  lemma UpdateKeepsInv(s: seq<Entry>, nextId: int, e: Entry)
    requires StoreInv(s, nextId)
    ensures StoreInv(Reducer(s, Update(e)), nextId)
  {
    UpdateKeepsIds(s, e);
    var r := Reducer(s, Update(e));
    forall i | 0 <= i < |r|
      ensures IdBelow(r[i].id, nextId)
    {
      assert Canon(r[i].id) == Canon(s[i].id);
      assert IdBelow(s[i].id, nextId);
    }
  }

  /** Any DELETE keeps the invariant: what survives is an ordered selection. */
  lemma DeleteKeepsInv(s: seq<Entry>, nextId: int, id: IdVal)
    requires StoreInv(s, nextId)
    ensures StoreInv(Reducer(s, Delete(id)), nextId)
  {
    DeleteIsOrderedSelection(s, id);
    var r := Reducer(s, Delete(id));
    var ix := KeptIndices(s, id, 0);
    forall i, j | 0 <= i < j < |r|
      ensures Canon(r[i].id) != Canon(r[j].id)
    {
      assert r[i] == s[ix[i]] && r[j] == s[ix[j]] && ix[i] < ix[j];
    }
    forall i | 0 <= i < |r|
      ensures IdBelow(r[i].id, nextId)
    {
      assert r[i] == s[ix[i]];
    }
  }

  /** The ids that n successive reads-then-increments of the counter hand out
      when it starts at k: k, k+1, ..., k+n-1, so never the same id twice. */
  function AllocateIds(k: int, n: nat): (ids: seq<int>)
    ensures |ids| == n
    ensures forall i :: 0 <= i < n ==> ids[i] == k + i
    ensures forall i, j :: 0 <= i < j < n ==> ids[i] != ids[j]
    decreases n
  {
    if n == 0 then [] else [k] + AllocateIds(k + 1, n - 1)
  }

  /** One more allocation appends the counter's current value k + n. */
  lemma AllocateIdsSnoc(k: int, n: nat)
    ensures AllocateIds(k, n + 1) == AllocateIds(k, n) + [k + n]
  {
  }

  class DiaryStore {
    /** The current list (the reducer's state), newest entry first. */
    var entries: seq<Entry>
    /** idRef.current: the id the next created entry gets. */
    var nextId: int
    /** Every id the counter has handed out, in order. */
    ghost var issued: seq<int>

    ghost predicate Valid()
      reads this
    {
      && StoreInv(entries, nextId)
      && FirstFreeId <= nextId
      && issued == AllocateIds(FirstFreeId, nextId - FirstFreeId)
    }

    /** useReducer(reducer, mockData) and useRef(3). */
    constructor (t1: int, t2: int)
      ensures Valid()
      ensures entries == MockData(t1, t2) && nextId == FirstFreeId && issued == []
    {
      entries := MockData(t1, t2);
      nextId := FirstFreeId;
      issued := [];
    }

    /** dispatch: the held list becomes the reducer's result. Only the three
        intents below call it; consumers are never handed dispatch itself, so
        it need not keep Valid() for an arbitrary action. */
    method Dispatch(action: Action)
      modifies this`entries
      ensures entries == Reducer(old(entries), action)
    {
      entries := Reducer(entries, action);
    }

    /** onCreate: the counter's value becomes the new entry's id, the counter
        goes up by one, and the entry is dispatched with CREATE. */
    method OnCreate(createdDate: int, emotionId: int, content: string)
      requires Valid()
      modifies this
      ensures Valid()
      ensures nextId == old(nextId) + 1
      ensures entries == Reducer(old(entries), Create(Entry(Num(old(nextId)), createdDate, emotionId, content)))
      ensures issued == old(issued) + [old(nextId)] && old(nextId) !in old(issued)
    {
      var id := nextId;
      var e := Entry(Num(id), createdDate, emotionId, content);
      CreateKeepsInv(entries, id, e);
      AllocateIdsSnoc(FirstFreeId, id - FirstFreeId);
      assert id !in issued by {
        assert forall i :: 0 <= i < |issued| ==> issued[i] < id;
      }
      nextId := id + 1;
      issued := issued + [id];
      Dispatch(Create(e));
    }

    /** onUpdate: dispatches the full replacement record with UPDATE. */
    method OnUpdate(id: IdVal, createdDate: int, emotionId: int, content: string)
      requires Valid()
      modifies this`entries
      ensures Valid()
      ensures entries == Reducer(old(entries), Update(Entry(id, createdDate, emotionId, content)))
    {
      var e := Entry(id, createdDate, emotionId, content);
      UpdateKeepsInv(entries, nextId, e);
      Dispatch(Update(e));
    }

    /** onDelete: dispatches DELETE carrying only the id. */
    method OnDelete(id: IdVal)
      requires Valid()
      modifies this`entries
      ensures Valid()
      ensures entries == Reducer(old(entries), Delete(id))
    {
      DeleteKeepsInv(entries, nextId, id);
      Dispatch(Delete(id));
    }
  }

  /** The reducer steps the three test buttons cause on the seed list: the new
      entry 3 goes in front, entry 1 is replaced where it stands, then entry 1
      is removed, leaving entry 3 before entry 2. */
  lemma {:induction false} ButtonScenario(t1: int, t2: int, t: int, t': int)
    ensures var s0 := MockData(t1, t2);
      var e3 := Entry(Num(3), t, 1, "Hello");
      var e1 := Entry(Num(1), t', 3, "수정된 일기입니다.");
      && Reducer(s0, Create(e3)) == [e3, s0[0], s0[1]]
      && Reducer([e3, s0[0], s0[1]], Update(e1)) == [e3, e1, s0[1]]
      && Reducer([e3, e1, s0[1]], Delete(Num(1))) == [e3, s0[1]]
  {
    var s0 := MockData(t1, t2);
    var e3 := Entry(Num(3), t, 1, "Hello");
    var e1 := Entry(Num(1), t', 3, "수정된 일기입니다.");
    SameNumIff(3, 1);
    SameNumIff(2, 1);
    var s1 := [e3, s0[0], s0[1]];
    var u := Reducer(s1, Update(e1));
    assert u[0] == e3 && u[1] == e1 && u[2] == s0[1];
    var s2 := [e3, e1, s0[1]];
    assert s2[1..][1..] == [s0[1]] && s2[1..][1..][1..] == [];
    assert RemoveMatching(s2[1..][1..], Num(1)) == [s0[1]];
    assert RemoveMatching(s2[1..], Num(1)) == [s0[1]];
  }

  /** The three test buttons pressed in turn on a fresh store: create, then
      update id 1, then delete id 1, leaving the new entry and entry 2. */
  method TestButtons(t1: int, t2: int, t: int, t': int) returns (final: seq<Entry>)
    ensures final == [Entry(Num(3), t, 1, "Hello"), Entry(Num(2), t2, 2, "2번 일기 내용")]
  {
    ButtonScenario(t1, t2, t, t');
    var store := new DiaryStore(t1, t2);
    store.OnCreate(t, 1, "Hello");
    store.OnUpdate(Num(1), t', 3, "수정된 일기입니다.");
    store.OnDelete(Num(1));
    final := store.entries;
  }
}
