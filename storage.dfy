/**
 * src/services/storage.js: the extension's settings store. The browser's
 * key-value storage (`chrome.storage.local`, or `localStorage` outside the
 * extension) is a map; the saved CVs and the optimisation history are lists
 * kept under fixed keys.
 */
module Storage {
  import opened Wrappers

  const ApiKeyKey := "geminiApiKey"
  const SavedCvsKey := "savedCVs"
  const HistoryKey := "optimizationHistory"
  /** Line 78: the most history entries kept. */
  const HistoryLimit := 50

  /** A saved CV; `content` stands for the fields besides `id` and `updatedAt`. An empty `id` is a missing one. */
  datatype Cv = Cv(id: string, updatedAt: string, content: string)

  /** A history entry; `content` stands for the fields besides `id` and `date`. */
  datatype HistoryItem = HistoryItem(id: string, date: string, content: string)

  /** The values the extension stores. */
  datatype Value =
    | Text(text: string)
    | CvList(cvs: seq<Cv>)
    | HistoryList(items: seq<HistoryItem>)

  /** The two list keys hold lists of their own kind. */
  predicate WellTyped(key: string, v: Value) {
    && (key == SavedCvsKey ==> v.CvList?)
    && (key == HistoryKey ==> v.HistoryList?)
  }

  predicate ValidStore(m: map<string, Value>) {
    forall k :: k in m ==> WellTyped(k, m[k])
  }

  /** `get(key)`: the stored value, `None` for `undefined`. */
  function Lookup(m: map<string, Value>, key: string): Option<Value> {
    if key in m then Some(m[key]) else None
  }

  /** `set(k, v)` then `get(k)` yields `v`; every other key reads as before. */
  lemma SetThenGet(m: map<string, Value>, k: string, v: Value, other: string)
    ensures Lookup(m[k := v], k) == Some(v)
    ensures other != k ==> Lookup(m[k := v], other) == Lookup(m, other)
  {
  }

  /** Lines 42-45: the saved CVs, `[]` when the key is unset. */
  function StoredCvs(m: map<string, Value>): seq<Cv> {
    match Lookup(m, SavedCvsKey)
    case Some(CvList(cvs)) => cvs
    case _ => []
  }

  /** Lines 68-71: the history, `[]` when the key is unset. */
  function StoredHistory(m: map<string, Value>): seq<HistoryItem> {
    match Lookup(m, HistoryKey)
    case Some(HistoryList(items)) => items
    case _ => []
  }

  /** Both lists read as empty on a store that has never held them, and as what was written otherwise. */
  lemma ListDefaults(m: map<string, Value>, cvs: seq<Cv>, items: seq<HistoryItem>)
    ensures SavedCvsKey !in m ==> StoredCvs(m) == []
    ensures HistoryKey !in m ==> StoredHistory(m) == []
    ensures StoredCvs(m[SavedCvsKey := CvList(cvs)]) == cvs
    ensures StoredHistory(m[HistoryKey := HistoryList(items)]) == items
  {
  }

  // ---------------------------------------------------------------------------
  // Saved CVs

  /** `cvs.findIndex(c => c.id === id)`: the first index holding `id`, or -1. */
  function FindIndex(cvs: seq<Cv>, id: string): (r: int)
    ensures -1 <= r < |cvs|
    ensures r >= 0 ==> cvs[r].id == id
    ensures forall j :: 0 <= j < |cvs| && (r < 0 || j < r) ==> cvs[j].id != id
  {
    if |cvs| == 0 then -1
    else if cvs[0].id == id then 0
    else
      var k := FindIndex(cvs[1..], id);
      if k < 0 then -1 else k + 1
  }

  /** Line 49: the CV's own id when it has one, else the fresh one; `updatedAt` is the time of the call. */
  function NewCv(cv: Cv, freshId: string, now: string): Cv {
    Cv(if cv.id != "" then cv.id else freshId, now, cv.content)
  }

  /** Lines 50-56: replace the first entry with the same id, or append. */
  function Upsert(cvs: seq<Cv>, c: Cv): (r: seq<Cv>)
    ensures c in r
    ensures |r| == |cvs| || |r| == |cvs| + 1
  {
    var index := FindIndex(cvs, c.id);
    if index >= 0 then
      assert cvs[index := c][index] == c;
      cvs[index := c]
    else
      assert (cvs + [c])[|cvs|] == c;
      cvs + [c]
  }

  /** With the id present, the first entry holding it is replaced in place; length, order and the rest are kept. */
  lemma UpsertReplacesFirst(cvs: seq<Cv>, c: Cv, k: int)
    requires 0 <= k < |cvs| && cvs[k].id == c.id
    requires forall j :: 0 <= j < k ==> cvs[j].id != c.id
    ensures Upsert(cvs, c) == cvs[k := c]
    ensures |Upsert(cvs, c)| == |cvs|
  {
    var i := FindIndex(cvs, c.id);
    assert i == k;
  }

  /** With the id absent, the entry is appended at the end. */
  lemma UpsertAppends(cvs: seq<Cv>, c: Cv)
    requires forall j :: 0 <= j < |cvs| ==> cvs[j].id != c.id
    ensures Upsert(cvs, c) == cvs + [c]
    ensures |Upsert(cvs, c)| == |cvs| + 1
  {
    var i := FindIndex(cvs, c.id);
    assert i < 0;
  }

  /**
   * After `saveCV` the saved CV is in the list under its own id when it had
   * one, under the fresh id otherwise, with the content given and the time
   * of the call; every entry with another id is kept.
   */
  lemma SaveCvListsIt(cvs: seq<Cv>, cv: Cv, freshId: string, now: string)
    ensures var c := NewCv(cv, freshId, now);
            && c in Upsert(cvs, c)
            && (cv.id != "" ==> c.id == cv.id)
            && (cv.id == "" ==> c.id == freshId)
            && c.content == cv.content && c.updatedAt == now
            && (forall x :: x in cvs && x.id != c.id ==> x in Upsert(cvs, c))
  {
    var c := NewCv(cv, freshId, now);
    var i := FindIndex(cvs, c.id);
    var u := Upsert(cvs, c);
    if i >= 0 {
      assert u[i] == c;
      forall x | x in cvs && x.id != c.id ensures x in u {
        var j :| 0 <= j < |cvs| && cvs[j] == x;
        assert u[j] == x;
      }
    } else {
      assert u[|cvs|] == c;
      forall x | x in cvs ensures x in u {
        var j :| 0 <= j < |cvs| && cvs[j] == x;
        assert u[j] == x;
      }
    }
  }

  /** Upserting two records with the same id leaves only the second: the first is overwritten in place. */
  lemma UpsertSameId(cvs: seq<Cv>, c1: Cv, c2: Cv)
    requires c1.id == c2.id
    ensures Upsert(Upsert(cvs, c1), c2) == Upsert(cvs, c2)
  {
    var i := FindIndex(cvs, c1.id);
    var once := Upsert(cvs, c1);
    if i >= 0 {
      forall j | 0 <= j < i ensures once[j].id != c2.id {
        assert once[j] == cvs[j];
      }
      UpsertReplacesFirst(once, c2, i);
      UpsertReplacesFirst(cvs, c2, i);
      assert once[i := c2] == cvs[i := c2];
    } else {
      forall j | 0 <= j < |cvs| ensures once[j].id != c2.id {
        assert once[j] == cvs[j];
      }
      UpsertReplacesFirst(once, c2, |cvs|);
      UpsertAppends(cvs, c2);
      assert once[|cvs| := c2] == cvs + [c2];
    }
  }

  /**
   * `saveCV` called twice with the same CV. With an id, the second call
   * touches only that entry's `updatedAt`, and the list is what the second
   * call alone would have made. Without an id, each call draws a fresh id,
   * so the second call appends a second entry with the same content.
   */
  lemma SaveCvTwice(cvs: seq<Cv>, cv: Cv, firstId: string, firstTime: string, secondId: string, secondTime: string)
    ensures var once := Upsert(cvs, NewCv(cv, firstId, firstTime));
            var twice := Upsert(once, NewCv(cv, secondId, secondTime));
            && (cv.id != "" ==>
                  twice == Upsert(cvs, NewCv(cv, secondId, secondTime))
                  && exists i :: 0 <= i < |once| && twice == once[i := once[i].(updatedAt := secondTime)])
            && (cv.id == "" && firstId != secondId && (forall j :: 0 <= j < |cvs| ==> cvs[j].id != secondId) ==>
                  twice == once + [Cv(secondId, secondTime, cv.content)])
  {
    var c1, c2 := NewCv(cv, firstId, firstTime), NewCv(cv, secondId, secondTime);
    var once := Upsert(cvs, c1);
    if cv.id != "" {
      UpsertSameId(cvs, c1, c2);
      var i := FindIndex(cvs, c1.id);
      var k := if i >= 0 then i else |cvs|;
      assert once[k] == c1;
      forall j | 0 <= j < k ensures once[j].id != c2.id {
        assert once[j] == cvs[j];
      }
      UpsertReplacesFirst(once, c2, k);
      assert c2 == once[k].(updatedAt := secondTime);
    } else if firstId != secondId && forall j :: 0 <= j < |cvs| ==> cvs[j].id != secondId {
      var i := FindIndex(cvs, c1.id);
      forall j | 0 <= j < |once| ensures once[j].id != c2.id {
        if j < |cvs| && j != i {
          assert once[j] == cvs[j];
        } else {
          assert once[j] == c1;
        }
      }
      UpsertAppends(once, c2);
    }
  }

  /** Saving the same CV twice is saving it once. */
  lemma UpsertIdempotent(cvs: seq<Cv>, c: Cv)
    ensures Upsert(Upsert(cvs, c), c) == Upsert(cvs, c)
  {
    UpsertSameId(cvs, c, c);
  }

  /** Line 64: `cvs.filter(c => c.id !== id)`. */
  function RemoveById(cvs: seq<Cv>, id: string): (r: seq<Cv>)
    ensures |r| <= |cvs|
  {
    if |cvs| == 0 then []
    else if cvs[0].id == id then RemoveById(cvs[1..], id)
    else [cvs[0]] + RemoveById(cvs[1..], id)
  }

  /** Exactly the entries with another id survive. */
  lemma {:induction false} RemoveByIdMembers(cvs: seq<Cv>, id: string)
    ensures forall c :: c in RemoveById(cvs, id) <==> c in cvs && c.id != id
  {
    if |cvs| > 0 {
      RemoveByIdMembers(cvs[1..], id);
      assert cvs == [cvs[0]] + cvs[1..];
    }
  }

  /** Filtering keeps the order: it distributes over concatenation. */
  lemma {:induction false} RemoveByIdConcat(a: seq<Cv>, b: seq<Cv>, id: string)
    ensures RemoveById(a + b, id) == RemoveById(a, id) + RemoveById(b, id)
  {
    if |a| > 0 {
      assert (a + b)[1..] == a[1..] + b;
      RemoveByIdConcat(a[1..], b, id);
    } else {
      assert a + b == b;
    }
  }

  /** A list without the id is left as it is. */
  lemma {:induction false} RemoveByIdAbsent(cvs: seq<Cv>, id: string)
    requires forall j :: 0 <= j < |cvs| ==> cvs[j].id != id
    ensures RemoveById(cvs, id) == cvs
  {
    if |cvs| > 0 {
      RemoveByIdAbsent(cvs[1..], id);
      assert cvs == [cvs[0]] + cvs[1..];
    }
  }

  /** Overwriting an entry holding the id with another one holding it does not change what the filter keeps. */
  lemma RemoveByIdOverwrite(cvs: seq<Cv>, k: int, c: Cv)
    requires 0 <= k < |cvs| && cvs[k].id == c.id
    ensures RemoveById(cvs[k := c], c.id) == RemoveById(cvs, c.id)
  {
    var u := cvs[k := c];
    assert cvs == cvs[..k] + [cvs[k]] + cvs[k + 1..];
    assert u == cvs[..k] + [c] + cvs[k + 1..];
    RemoveByIdConcat(cvs[..k] + [cvs[k]], cvs[k + 1..], c.id);
    RemoveByIdConcat(cvs[..k], [cvs[k]], c.id);
    RemoveByIdConcat(cvs[..k] + [c], cvs[k + 1..], c.id);
    RemoveByIdConcat(cvs[..k], [c], c.id);
  }

  /** Deleting an id after saving a CV under it leaves what deleting it before would: the save is undone. */
  lemma DeleteUndoesSave(cvs: seq<Cv>, c: Cv)
    ensures RemoveById(Upsert(cvs, c), c.id) == RemoveById(cvs, c.id)
  {
    var i := FindIndex(cvs, c.id);
    if i >= 0 {
      RemoveByIdOverwrite(cvs, i, c);
    } else {
      RemoveByIdConcat(cvs, [c], c.id);
    }
  }

  // ---------------------------------------------------------------------------
  // History

  /** Line 75: a history entry always gets a fresh id and the time of the call. */
  function NewHistoryItem(item: HistoryItem, freshId: string, now: string): HistoryItem {
    HistoryItem(freshId, now, item.content)
  }

  /** Lines 76-78: `unshift`, then one `pop` if the list is over the limit. */
  function PushCapped(history: seq<HistoryItem>, item: HistoryItem): (r: seq<HistoryItem>) {
    var h := [item] + history;
    if |h| > HistoryLimit then h[..|h| - 1] else h
  }

  /**
   * The new entry comes first and the old ones follow in order; the oldest
   * is dropped once the list would pass the limit, so a list within the
   * limit stays within it.
   */
  lemma PushCappedShape(history: seq<HistoryItem>, item: HistoryItem)
    ensures var r := PushCapped(history, item);
            && |r| == (if |history| >= HistoryLimit then |history| else |history| + 1)
            && r[0] == item
            && r[1..] == history[..|r| - 1]
    ensures |history| <= HistoryLimit ==> |PushCapped(history, item)| <= HistoryLimit
    ensures |history| == HistoryLimit ==> PushCapped(history, item) == [item] + history[..HistoryLimit - 1]
  {
    var r := PushCapped(history, item);
    assert r[1..] == history[..|r| - 1];
  }

  /**
   * `saveHistory` puts the new entry first, under the fresh id and the time
   * of the call, whatever id or date the item came with; a list within the
   * limit of 50 entries stays within it.
   */
  lemma SavedHistoryEntry(history: seq<HistoryItem>, item: HistoryItem, freshId: string, now: string)
    ensures var h := PushCapped(history, NewHistoryItem(item, freshId, now));
            && 1 <= |h|
            && (|history| <= HistoryLimit ==> |h| <= HistoryLimit)
            && h[0].id == freshId && h[0].date == now && h[0].content == item.content
  {
    PushCappedShape(history, NewHistoryItem(item, freshId, now));
  }

  class Store {
    var store: map<string, Value>

    ghost predicate Valid()
      reads this
    {
      ValidStore(store)
    }

    constructor(initial: map<string, Value>)
      requires ValidStore(initial)
      ensures Valid() && store == initial
    {
      store := initial;
    }

    /** `get(key)` (lines 6-21). */
    function Get(key: string): Option<Value>
      reads this
    {
      Lookup(store, key)
    }

    /** `set(key, value)` (lines 23-32). */
    method Set(key: string, value: Value)
      requires Valid() && WellTyped(key, value)
      modifies this
      ensures Valid() && store == old(store)[key := value]
    {
      store := store[key := value];
    }

    /** `getApiKey()` (lines 34-36). */
    function GetApiKey(): Option<Value>
      reads this
    {
      Get(ApiKeyKey)
    }

    /** `setApiKey(key)` (lines 38-40). */
    method SetApiKey(key: string)
      requires Valid()
      modifies this
      ensures Valid() && store == old(store)[ApiKeyKey := Text(key)]
    {
      Set(ApiKeyKey, Text(key));
    }

    /** `getCVs()` (lines 42-45). */
    function GetCVs(): seq<Cv>
      reads this
    {
      StoredCvs(store)
    }

    /** `getHistory()` (lines 68-71). */
    function GetHistory(): seq<HistoryItem>
      reads this
    {
      StoredHistory(store)
    }

    /**
     * `saveCV(cv)` (lines 47-60), `freshId` and `now` standing for `uuidv4()`
     * and the ISO time: upsert by id and write the list back.
     */
    method SaveCV(cv: Cv, freshId: string, now: string) returns (newCv: Cv)
      requires Valid()
      modifies this
      ensures Valid()
      ensures newCv == NewCv(cv, freshId, now)
      ensures store == old(store)[SavedCvsKey := CvList(Upsert(StoredCvs(old(store)), newCv))]
    {
      var cvs := GetCVs();
      newCv := NewCv(cv, freshId, now);
      var index := FindIndex(cvs, newCv.id);
      if index >= 0 {
        cvs := cvs[index := newCv];
      } else {
        cvs := cvs + [newCv];
      }
      Set(SavedCvsKey, CvList(cvs));
    }

    /** `deleteCV(id)` (lines 62-66): keep the other entries and write the list back. */
    method DeleteCV(id: string)
      requires Valid()
      modifies this
      ensures Valid()
      ensures store == old(store)[SavedCvsKey := CvList(RemoveById(StoredCvs(old(store)), id))]
    {
      var cvs := GetCVs();
      var filtered := RemoveById(cvs, id);
      Set(SavedCvsKey, CvList(filtered));
    }

    /** `saveHistory(item)` (lines 73-81): push the new entry in front, drop the oldest past the limit. */
    method SaveHistory(item: HistoryItem, freshId: string, now: string) returns (newItem: HistoryItem)
      requires Valid()
      modifies this
      ensures Valid()
      ensures newItem == NewHistoryItem(item, freshId, now)
      ensures store == old(store)[HistoryKey := HistoryList(PushCapped(StoredHistory(old(store)), newItem))]
    {
      var history := GetHistory();
      newItem := NewHistoryItem(item, freshId, now);
      history := [newItem] + history;
      if |history| > HistoryLimit {
        history := history[..|history| - 1];
      }
      Set(HistoryKey, HistoryList(history));
    }
  }
}
