/**
 * The analysis history (`src/utils/storage`): a list of entries kept as JSON
 * text under one key (`STORAGE_KEY`) of the browser's `localStorage`.
 *
 * The key-value store is the map `data`; what is stored under a key is either
 * the serialisation of a list of entries or text that does not parse as one.
 * The id source (`crypto.randomUUID`), the clock (`Date.now`) and a failure of
 * the store (`setItem` or `removeItem` throwing) are parameters of each call.
 */
module Storage {
  import opened Outcomes

  /** `{...item, id, timestamp}`: the caller's item with a generated id and a creation time. */
  datatype HistoryEntry<T> = HistoryEntry(id: string, timestamp: int, item: T)

  /** The text under a key of the store. */
  datatype Stored<T> = Serialized(entries: seq<HistoryEntry<T>>) | Unparseable(text: string)

  /** The history held in a store: what `getHistory` returns. */
  function HistoryIn<T>(data: map<string, Stored<T>>, key: string): (h: seq<HistoryEntry<T>>)
    ensures key in data && data[key].Serialized? ==> h == data[key].entries
    ensures h != [] ==> key in data && data[key].Serialized?
  {
    if key in data && data[key].Serialized? then data[key].entries else []
  }

  /** `history.filter(entry => entry.id !== id)`. */
  function Without<T>(history: seq<HistoryEntry<T>>, id: string): (r: seq<HistoryEntry<T>>)
    ensures |r| <= |history|
    ensures forall k :: 0 <= k < |r| ==> r[k].id != id && r[k] in history
    decreases |history|
  {
    if history == [] then []
    else if history[0].id == id then Without(history[1..], id)
    else [history[0]] + Without(history[1..], id)
  }

  /** Where the history lives: the store and the key it uses. */
  class HistoryStorage<T> {
    const key: string
    var data: map<string, Stored<T>>

    constructor (key: string, data: map<string, Stored<T>>)
      ensures this.key == key && this.data == data
    {
      this.key := key;
      this.data := data;
    }

    /** `getHistory`: the stored list, or `[]` when nothing is stored or the text does not parse. */
    method GetHistory() returns (history: seq<HistoryEntry<T>>)
      ensures key !in data ==> history == []
      ensures key in data && data[key].Unparseable? ==> history == []
      ensures key in data && data[key].Serialized? ==> history == data[key].entries
    {
      if key in data {
        match data[key]
        case Serialized(entries) => history := entries;
        case Unparseable(_) => history := [];
      } else {
        history := [];
      }
    }

    /**
     * `addToHistory(item)`: stamps the item with `id` and `now`, puts it in front
     * of the current history and writes the list back. A failing write leaves
     * the store as it was and its error reaches the caller unchanged.
     */
    method AddToHistory(item: T, id: string, now: int, writeFailure: Option<Error>) returns (r: Result<HistoryEntry<T>, Error>)
      modifies this
      ensures writeFailure.Some? ==> r == Failure(writeFailure.value) && data == old(data)
      ensures writeFailure.None? ==>
        (r == Success(HistoryEntry(id, now, item))
         && data == old(data)[key := Serialized([r.value] + HistoryIn(old(data), key))])
    {
      var history := GetHistory();
      var entry := HistoryEntry(id, now, item);
      if writeFailure.Some? {
        return Failure(writeFailure.value);
      }
      data := data[key := Serialized([entry] + history)];
      r := Success(entry);
    }

    /** `removeFromHistory(id)`: writes back the history without the entries of that id. */
    method RemoveFromHistory(id: string, writeFailure: Option<Error>) returns (r: Outcome<Error>)
      modifies this
      ensures writeFailure.Some? ==> r == Fail(writeFailure.value) && data == old(data)
      ensures writeFailure.None? ==>
        (r == Pass && data == old(data)[key := Serialized(Without(HistoryIn(old(data), key), id))])
    {
      var history := GetHistory();
      var kept := Without(history, id);
      if writeFailure.Some? {
        return Fail(writeFailure.value);
      }
      data := data[key := Serialized(kept)];
      r := Pass;
    }

    /** `clearHistory`: removes the key, and nothing else, from the store. */
    method ClearHistory(removeFailure: Option<Error>) returns (r: Outcome<Error>)
      modifies this
      ensures removeFailure.Some? ==> r == Fail(removeFailure.value) && data == old(data)
      ensures removeFailure.None? ==> r == Pass && data == old(data) - {key}
    {
      if removeFailure.Some? {
        return Fail(removeFailure.value);
      }
      data := data - {key};
      r := Pass;
    }
  }

  /** A client of the class: two additions, then a failing one, seen only through the methods' contracts. */
  method AddClient(key: string, failure: Error)
  {
    var store := new HistoryStorage<string>(key, map[]);
    var first := store.AddToHistory("Existing", "1", 123, None);
    var second := store.AddToHistory("New Item", "mock-uuid-123", 456, None);
    var h := store.GetHistory();
    assert h == [HistoryEntry("mock-uuid-123", 456, "New Item"), HistoryEntry("1", 123, "Existing")];
    var third := store.AddToHistory("Lost", "2", 789, Some(failure));
    assert third == Failure(failure);
    h := store.GetHistory();
    assert |h| == 2;
    var cleared := store.ClearHistory(None);
    h := store.GetHistory();
    assert h == [];
  }

  // ---------------------------------------------------------------------
  // Properties

  /** On an empty store the persisted list is exactly the new entry. */
  lemma AddToEmpty<T>(data: map<string, Stored<T>>, key: string, e: HistoryEntry<T>)
    requires key !in data
    ensures HistoryIn(data[key := Serialized([e] + HistoryIn(data, key))], key) == [e]
  {
  }

  /** Adding prepends: the new entry comes first and the older ones follow in order. */
  lemma AddPrepends<T>(data: map<string, Stored<T>>, key: string, e: HistoryEntry<T>)
    ensures var h := HistoryIn(data[key := Serialized([e] + HistoryIn(data, key))], key);
      && |h| == |HistoryIn(data, key)| + 1 && h[0] == e && h[1..] == HistoryIn(data, key)
  {
    var h := [e] + HistoryIn(data, key);
    assert h[1..] == HistoryIn(data, key);
  }

  /** Removing keeps exactly the entries with another id. */
  lemma {:induction false} WithoutKeepsOthers<T>(history: seq<HistoryEntry<T>>, id: string, e: HistoryEntry<T>)
    ensures e in Without(history, id) <==> e in history && e.id != id
    decreases |history|
  {
    if history != [] {
      WithoutKeepsOthers(history[1..], id, e);
      assert history == [history[0]] + history[1..];
    }
  }

  /** Removing keeps the remaining entries in their order: it works on each part of a history alone. */
  lemma {:induction false} WithoutKeepsOrder<T>(front: seq<HistoryEntry<T>>, back: seq<HistoryEntry<T>>, id: string)
    ensures Without(front + back, id) == Without(front, id) + Without(back, id)
    decreases |front|
  {
    if front != [] {
      WithoutKeepsOrder(front[1..], back, id);
      assert (front + back)[1..] == front[1..] + back;
    } else {
      assert front + back == back;
    }
  }

  predicate IdsDistinct<T>(history: seq<HistoryEntry<T>>)
  {
    forall j, k :: 0 <= j < k < |history| ==> history[j].id != history[k].id
  }

  /** With distinct ids, removing a present id shortens the history by exactly one. */
  lemma {:induction false} WithoutRemovesOne<T>(history: seq<HistoryEntry<T>>, id: string)
    requires IdsDistinct(history)
    ensures |Without(history, id)| == if exists k :: 0 <= k < |history| && history[k].id == id then |history| - 1 else |history|
    decreases |history|
  {
    if history != [] {
      var tail := history[1..];
      assert IdsDistinct(tail) by {
        forall j, k | 0 <= j < k < |tail| ensures tail[j].id != tail[k].id {
          assert tail[j] == history[j + 1] && tail[k] == history[k + 1];
        }
      }
      WithoutRemovesOne(tail, id);
      if history[0].id == id {
        assert forall k :: 0 <= k < |tail| ==> tail[k].id != id by {
          forall k | 0 <= k < |tail| ensures tail[k].id != id {
            assert tail[k] == history[k + 1];
          }
        }
      } else {
        if exists k :: 0 <= k < |history| && history[k].id == id {
          var k :| 0 <= k < |history| && history[k].id == id;
          assert tail[k - 1] == history[k];
        }
        if exists k :: 0 <= k < |tail| && tail[k].id == id {
          var k :| 0 <= k < |tail| && tail[k].id == id;
          assert history[k + 1] == tail[k];
        }
      }
    }
  }

  /** Removing the entry just added, under an id not yet used, gives back the previous history. */
  lemma {:induction false} RemoveUndoesAdd<T>(history: seq<HistoryEntry<T>>, e: HistoryEntry<T>)
    requires forall k :: 0 <= k < |history| ==> history[k].id != e.id
    ensures Without([e] + history, e.id) == history
  {
    assert ([e] + history)[1..] == history;
    WithoutNoMatch(history, e.id);
  }

  lemma {:induction false} WithoutNoMatch<T>(history: seq<HistoryEntry<T>>, id: string)
    requires forall k :: 0 <= k < |history| ==> history[k].id != id
    ensures Without(history, id) == history
    decreases |history|
  {
    if history != [] {
      WithoutNoMatch(history[1..], id);
      assert history == [history[0]] + history[1..];
    }
  }

  /** Clearing removes only the history's key; other keys of the store are untouched. */
  lemma ClearKeepsOtherKeys<T>(data: map<string, Stored<T>>, key: string, other: string)
    requires other != key && other in data
    ensures other in data - {key} && (data - {key})[other] == data[other]
    ensures HistoryIn(data - {key}, key) == []
  {
  }
}
