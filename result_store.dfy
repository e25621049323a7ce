/**
 * The result collection (`embeddedGallery`) as a map from the upsert key
 * (studentId, galleryImageId) to the stored document, and the effect of
 * `update_one(filter, {"$set": fields}, upsert=True)` on it: an existing
 * document under the key gets the given fields overwritten and keeps its
 * other fields; a missing one is inserted with exactly the given fields.
 */
module ResultStore {
  import opened Records

  type Store = map<ResultKey, Document>

  /** One `update_one(..., {"$set": fields}, upsert=True)` under `key`. */
  function SetUpsert(store: Store, key: ResultKey, fields: Document): Store
  {
    store[key := if key in store then store[key] + fields else fields]
  }

  /**
   * `$set` with upsert: the key is present afterwards; its document holds
   * every given field with the given value and keeps every other field it
   * had; no other key changes.
   */
  lemma SetUpsertMeaning(store: Store, key: ResultKey, fields: Document)
    ensures var r := SetUpsert(store, key, fields);
      && r.Keys == store.Keys + {key}
      && r[key].Keys == Base(store, key).Keys + fields.Keys
      && (forall f :: f in fields ==> r[key][f] == fields[f])
      && (forall f :: f in Base(store, key) && f !in fields ==> r[key][f] == store[key][f])
      && (forall k :: k in store && k != key ==> r[k] == store[k])
  {
  }

  /** The document under `key` before any upsert: the stored one, or none. */
  function Base(store: Store, key: ResultKey): Document
  {
    if key in store then store[key] else map[]
  }

  /** The upserts applied one after the other, first to last. */
  function ApplyUpserts(store: Store, ups: seq<(ResultKey, Document)>): Store
  {
    if ups == [] then store
    else SetUpsert(ApplyUpserts(store, ups[..|ups| - 1]), ups[|ups| - 1].0, ups[|ups| - 1].1)
  }

  /** The keys the upserts write. */
  function KeysOf(ups: seq<(ResultKey, Document)>): (ks: set<ResultKey>)
  {
    set i | 0 <= i < |ups| :: ups[i].0
  }

  /** All fields the upserts set under `key`, a later upsert winning over an earlier one. */
  function Overrides(ups: seq<(ResultKey, Document)>, key: ResultKey): Document
  {
    if ups == [] then map[]
    else
      Overrides(ups[..|ups| - 1], key)
      + (if ups[|ups| - 1].0 == key then ups[|ups| - 1].1 else map[])
  }

  lemma KeysOfLast(ups: seq<(ResultKey, Document)>)
    requires ups != []
    ensures KeysOf(ups) == KeysOf(ups[..|ups| - 1]) + {ups[|ups| - 1].0}
  {
    var init := ups[..|ups| - 1];
    forall k | k in KeysOf(ups) ensures k in KeysOf(init) + {ups[|ups| - 1].0} {
      var i :| 0 <= i < |ups| && ups[i].0 == k;
      if i < |ups| - 1 {
        assert init[i] == ups[i];
      }
    }
    forall k | k in KeysOf(init) ensures k in KeysOf(ups) {
      var i :| 0 <= i < |init| && init[i].0 == k;
      assert ups[i] == init[i];
    }
  }

  /** A key no upsert writes keeps its document, or stays absent. */
  lemma {:induction false} UntouchedKey(store: Store, ups: seq<(ResultKey, Document)>, key: ResultKey)
    requires key !in KeysOf(ups)
    ensures Overrides(ups, key) == map[]
    ensures key in ApplyUpserts(store, ups) <==> key in store
    ensures key in store ==> ApplyUpserts(store, ups)[key] == store[key]
    decreases |ups|
  {
    if ups != [] {
      var init := ups[..|ups| - 1];
      KeysOfLast(ups);
      UntouchedKey(store, init, key);
      var none: Document := map[];
      assert none + none == none;
    }
  }

  lemma UnionAssoc(a: Document, b: Document, c: Document)
    ensures (a + b) + c == a + (b + c)
  {
  }

  lemma UnionEmpty(a: Document)
    ensures map[] + a == a && a + map[] == a
  {
  }

  /** The last upsert of a run, stated on its own. */
  lemma LastUpsert(store: Store, ups: seq<(ResultKey, Document)>, key: ResultKey)
    requires ups != []
    ensures var init, last := ups[..|ups| - 1], ups[|ups| - 1];
      && ApplyUpserts(store, ups) == SetUpsert(ApplyUpserts(store, init), last.0, last.1)
      && Overrides(ups, key) == Overrides(init, key) + (if last.0 == key then last.1 else map[])
  {
  }

  /**
   * What a run of upserts leaves under a key it writes: the old document (if
   * any) with every field some upsert set overwritten, the last write of a
   * field winning.
   */
  lemma {:induction false} WrittenKey(store: Store, ups: seq<(ResultKey, Document)>, key: ResultKey)
    requires key in KeysOf(ups)
    ensures key in ApplyUpserts(store, ups)
    ensures ApplyUpserts(store, ups)[key] == Base(store, key) + Overrides(ups, key)
    decreases |ups|
  {
    var init := ups[..|ups| - 1];
    var last := ups[|ups| - 1];
    var before := ApplyUpserts(store, init);
    var o := Overrides(init, key);
    KeysOfLast(ups);
    LastUpsert(store, ups, key);
    if last.0 != key {
      WrittenKey(store, init, key);
      UnionEmpty(o);
    } else if key in KeysOf(init) {
      WrittenKey(store, init, key);
      UnionAssoc(Base(store, key), o, last.1);
    } else {
      UntouchedKey(store, init, key);
      UnionEmpty(last.1);
    }
  }

  /** The keys present after a run of upserts: the old ones and the written ones. */
  lemma ApplyUpsertsKeys(store: Store, ups: seq<(ResultKey, Document)>)
    ensures ApplyUpserts(store, ups).Keys == store.Keys + KeysOf(ups)
  {
    forall k ensures k in ApplyUpserts(store, ups) <==> k in store || k in KeysOf(ups) {
      if k in KeysOf(ups) {
        WrittenKey(store, ups, k);
      } else {
        UntouchedKey(store, ups, k);
      }
    }
  }

  /** Re-running the same upserts leaves the store as the first run left it. */
  lemma ApplyUpsertsIdempotent(store: Store, ups: seq<(ResultKey, Document)>)
    ensures ApplyUpserts(ApplyUpserts(store, ups), ups) == ApplyUpserts(store, ups)
  {
    var once := ApplyUpserts(store, ups);
    var twice := ApplyUpserts(once, ups);
    ApplyUpsertsKeys(store, ups);
    ApplyUpsertsKeys(once, ups);
    forall k | k in once ensures twice[k] == once[k] {
      if k in KeysOf(ups) {
        WrittenKey(store, ups, k);
        WrittenKey(once, ups, k);
        var o := Overrides(ups, k);
        assert (Base(store, k) + o) + o == Base(store, k) + o;
      } else {
        UntouchedKey(once, ups, k);
      }
    }
  }

  /**
   * When only one upsert writes `key`, the key ends up holding its old
   * document (if any) with exactly that upsert's fields overwritten.
   */
  lemma {:induction false} SingleWriter(store: Store, ups: seq<(ResultKey, Document)>, i: nat)
    requires i < |ups|
    requires forall j :: 0 <= j < |ups| && j != i ==> ups[j].0 != ups[i].0
    ensures ups[i].0 in ApplyUpserts(store, ups)
    ensures ApplyUpserts(store, ups)[ups[i].0] == Base(store, ups[i].0) + ups[i].1
  {
    assert ups[i].0 in KeysOf(ups);
    WrittenKey(store, ups, ups[i].0);
    OverridesSingle(ups, i);
  }

  lemma {:induction false} OverridesSingle(ups: seq<(ResultKey, Document)>, i: nat)
    requires i < |ups|
    requires forall j :: 0 <= j < |ups| && j != i ==> ups[j].0 != ups[i].0
    ensures Overrides(ups, ups[i].0) == ups[i].1
    decreases |ups|
  {
    var key := ups[i].0;
    var init := ups[..|ups| - 1];
    if i == |ups| - 1 {
      forall k | k in KeysOf(init) ensures k != key {
        var j :| 0 <= j < |init| && init[j].0 == k;
        assert ups[j] == init[j];
      }
      UntouchedKey(map[], init, key);
      assert map[] + ups[i].1 == ups[i].1;
    } else {
      assert init[i] == ups[i];
      OverridesSingle(init, i);
      assert Overrides(init, key) + map[] == Overrides(init, key);
    }
  }

  /**
   * A stored document carries its own key: its studentId and galleryImageId
   * fields hold the two parts of the key it is stored under.
   */
  ghost predicate CarriesKey(key: ResultKey, doc: Document)
  {
    && "studentId" in doc && doc["studentId"] == Str(key.0)
    && "galleryImageId" in doc && doc["galleryImageId"] == Str(key.1)
  }

  /** Every document in the store carries its key (the map models the collection faithfully). */
  ghost predicate Keyed(store: Store)
  {
    forall k :: k in store ==> CarriesKey(k, store[k])
  }

  /** Upserts whose fields carry their keys keep the store keyed. */
  lemma {:induction false} ApplyUpsertsKeepsKeyed(store: Store, ups: seq<(ResultKey, Document)>)
    requires Keyed(store)
    requires forall i :: 0 <= i < |ups| ==> CarriesKey(ups[i].0, ups[i].1)
    ensures Keyed(ApplyUpserts(store, ups))
    decreases |ups|
  {
    if ups != [] {
      var init := ups[..|ups| - 1];
      assert forall i :: 0 <= i < |init| ==> init[i] == ups[i];
      ApplyUpsertsKeepsKeyed(store, init);
      var last := ups[|ups| - 1];
      assert CarriesKey(last.0, last.1);
    }
  }
}
