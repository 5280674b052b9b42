/**
  The session kept in localStorage under the key "pixshopSession" (App.tsx:385-425): the auto-save
  effect that writes `{history: [{name, type, dataUrl}], index}` or removes the key, the load
  effect that reads it back on mount, and the order in which the two effects run.

  localStorage is a map from keys to stored texts. A stored text is kept as the JSON value it
  denotes: JSON.stringify followed by JSON.parse is the identity on the records saved here.
 */
module Persistence {
  import opened Outcomes
  import opened JsText
  import opened Files
  import opened DataUrl
  import History

  /** JSON values as JavaScript sees them after JSON.parse, plus `undefined` for a missing property. */
  datatype JsValue =
    | Undefined
    | Null
    | Bool(b: bool)
    | Num(n: int)
    | Str(s: string)
    | Arr(elems: seq<JsValue>)
    | Obj(props: map<string, JsValue>)

  /** What `localStorage.getItem` returns for a present key. */
  datatype StoredText =
    | EmptyText            // the empty string
    | Unparsable           // a non-empty text that JSON.parse rejects
    | Json(value: JsValue) // a text that JSON.parse reads as this value

  type Store = map<string, StoredText>

  const SessionKey: string := "pixshopSession"

  // ---------------------------------------------------------------------------------------------
  // JavaScript semantics used by the load effect
  // ---------------------------------------------------------------------------------------------

  /** Truthiness: false, 0, the empty string, null and undefined are falsy. */
  predicate Truthy(v: JsValue) {
    match v
    case Undefined => false
    case Null => false
    case Bool(b) => b
    case Num(n) => n != 0
    case Str(s) => s != []
    case Arr(_) => true
    case Obj(_) => true
  }

  /** `v.key`: a TypeError on null and undefined, undefined for a property that is not there. */
  function ReadProp(v: JsValue, key: string): (r: Result<JsValue>)
    ensures r.Err? <==> v.Null? || v.Undefined?
    ensures r.Err? ==> r.failure.kind == TypeError
    ensures r.Ok? ==> r.value == (if v.Obj? && key in v.props then v.props[key] else Undefined)
  {
    match v
    case Undefined => Err(Failure(TypeError, "Cannot read properties of undefined (reading '" + key + "')"))
    case Null => Err(Failure(TypeError, "Cannot read properties of null (reading '" + key + "')"))
    case Obj(m) => Ok(if key in m then m[key] else Undefined)
    case _ => Ok(Undefined)
  }

  /** `String(v)`, as the File constructor converts its name argument. */
  function JsToString(v: JsValue): string
    decreases v, 1
  {
    match v
    case Undefined => "undefined"
    case Null => "null"
    case Bool(b) => if b then "true" else "false"
    case Num(n) => IntToString(n)
    case Str(s) => s
    case Arr(elems) => JoinElements(elems, v)
    case Obj(_) => "[object Object]"
  }

  /** `Array.prototype.join(",")`, where null and undefined elements print as nothing. */
  function JoinElements(elems: seq<JsValue>, whole: JsValue): string
    requires whole.Arr? && forall e | e in elems :: e < whole
    decreases whole, 0, |elems|
  {
    if elems == [] then ""
    else
      assert elems[0] in elems;
      var first := if elems[0].Null? || elems[0].Undefined? then "" else JsToString(elems[0]);
      assert forall e | e in elems[1..] :: e in elems;
      if |elems| == 1 then first else first + "," + JoinElements(elems[1..], whole)
  }

  // ---------------------------------------------------------------------------------------------
  // The auto-save effect
  // ---------------------------------------------------------------------------------------------

  /** `{ name: file.name, type: file.type, dataUrl }` for one file. */
  function FileRecord(f: Artifact): JsValue {
    Obj(map["name" := Str(f.name), "type" := Str(f.mimeType), "dataUrl" := Str(FileToDataUrl(f))])
  }

  function FileRecords(h: seq<Artifact>): (rs: seq<JsValue>)
    ensures |rs| == |h| && forall i | 0 <= i < |h| :: rs[i] == FileRecord(h[i])
  {
    seq(|h|, i requires 0 <= i < |h| => FileRecord(h[i]))
  }

  /** `{ history: serializableHistory, index: historyIndex }`. */
  function SessionValue(h: seq<Artifact>, index: int): JsValue {
    Obj(map["history" := Arr(FileRecords(h)), "index" := Num(index)])
  }

  /**
    The auto-save effect: a non-empty history is written under the session key, an empty one
    removes the key. No other key changes.
   */
  function Save(store: Store, h: seq<Artifact>, index: int): (r: Store)
    ensures SessionKey in r <==> |h| > 0
  {
    if |h| > 0 then store[SessionKey := Json(SessionValue(h, index))] else store - {SessionKey}
  }

  /**
    The auto-save effect when `localStorage.setItem` may throw (a QuotaExceededError, say): the
    `catch` only logs, so a write that fails leaves the store as it was. `removeItem` does not throw.
   */
  function SaveAttempt(store: Store, h: seq<Artifact>, index: int, written: bool): Store {
    if |h| > 0 && !written then store else Save(store, h, index)
  }

  /** Saving the same session twice is saving it once. */
  lemma SaveIdempotent(store: Store, h: seq<Artifact>, index: int)
    ensures Save(Save(store, h, index), h, index) == Save(store, h, index)
  {
  }

  /** Saving touches no key but the session key. */
  lemma SaveLeavesOtherKeys(store: Store, h: seq<Artifact>, index: int, k: string)
    requires k != SessionKey
    ensures k in Save(store, h, index) <==> k in store
    ensures k in store ==> Save(store, h, index)[k] == store[k]
  {
  }

  /**
    The saved record holds one entry per file, in order, with the file's name, type and data URL,
    and the cursor as it was.
   */
  lemma SavedRecord(store: Store, h: seq<Artifact>, index: int)
    requires |h| > 0
    ensures var r := Save(store, h, index)[SessionKey];
      r.Json? && r.value.Obj? && "history" in r.value.props && "index" in r.value.props &&
      r.value.props["index"] == Num(index) &&
      var items := r.value.props["history"];
      items.Arr? && |items.elems| == |h| &&
      forall i | 0 <= i < |h| ::
        ReadProp(items.elems[i], "name") == Ok(Str(h[i].name)) &&
        ReadProp(items.elems[i], "dataUrl") == Ok(Str(FileToDataUrl(h[i])))
  {
  }

  // ---------------------------------------------------------------------------------------------
  // The load effect
  // ---------------------------------------------------------------------------------------------

  datatype LoadOutcome =
    | Untouched                                      // nothing usable under the key; nothing changes
    | Restored(history: seq<Artifact>, index: int)   // history and cursor set from the record
    | Discarded(failure: Failure)                    // something threw; the key is removed

  /** `dataURLtoFile(item.dataUrl, item.name)` for one stored entry. */
  function LoadItem(item: JsValue): Result<Artifact> {
    match ReadProp(item, "dataUrl")
    case Err(e) => Err(e)
    case Ok(url) => DecodeEntry(url, ReadProp(item, "name").value)
  }

  /** `dataURLtoFile(url, name)`: only a string has a `split` method. */
  function DecodeEntry(url: JsValue, name: JsValue): Result<Artifact> {
    match url
    case Str(s) => FileFromDataUrl(s, JsToString(name))
    case Undefined => Err(Failure(TypeError, "Cannot read properties of undefined (reading 'split')"))
    case Null => Err(Failure(TypeError, "Cannot read properties of null (reading 'split')"))
    case _ => Err(Failure(TypeError, "dataurl.split is not a function"))
  }

  /** An entry whose `dataUrl` is a string decodes as `dataURLtoFile` on it, under `String(name)`. */
  lemma LoadItemOfString(item: JsValue)
    requires item.Obj? && "dataUrl" in item.props && item.props["dataUrl"].Str?
    ensures LoadItem(item) ==
      FileFromDataUrl(item.props["dataUrl"].s, JsToString(if "name" in item.props then item.props["name"] else Undefined))
  {
    var name := if "name" in item.props then item.props["name"] else Undefined;
    assert ReadProp(item, "dataUrl") == Ok(item.props["dataUrl"]);
    assert ReadProp(item, "name") == Ok(name);
    assert LoadItem(item) == DecodeEntry(item.props["dataUrl"], name);
  }

  /** `items.map(...)` over the stored entries, each decoded by LoadItem. */
  function LoadItems(items: seq<JsValue>): Result<seq<Artifact>> {
    MapThrowing(items, LoadItem)
  }

  /**
    `items.map(decode)` where `decode` may throw: the results in order, or the failure of the
    first entry that throws.
   */
  function MapThrowing(items: seq<JsValue>, decode: JsValue -> Result<Artifact>): (r: Result<seq<Artifact>>)
    ensures r.Ok? ==>
      |r.value| == |items| &&
      forall i | 0 <= i < |items| :: decode(items[i]).Ok? && r.value[i] == decode(items[i]).value
  {
    if items == [] then Ok([])
    else
      match decode(items[0])
      case Err(e) => Err(e)
      case Ok(f) =>
        match MapThrowing(items[1..], decode)
        case Err(e) => Err(e)
        case Ok(fs) => Ok([f] + fs)
  }

  /** When every entry decodes, the mapping succeeds. */
  lemma {:induction false} MapThrowingAllOk(items: seq<JsValue>, decode: JsValue -> Result<Artifact>)
    requires forall i | 0 <= i < |items| :: decode(items[i]).Ok?
    ensures MapThrowing(items, decode).Ok?
  {
    if items != [] {
      assert decode(items[0]).Ok?;
      assert forall i | 0 <= i < |items[1..]| :: items[1..][i] == items[i + 1];
      MapThrowingAllOk(items[1..], decode);
    }
  }

  /** The mapping fails with the failure of the first entry that does not decode. */
  lemma {:induction false} MapThrowingFirstFailure(items: seq<JsValue>, decode: JsValue -> Result<Artifact>, k: nat)
    requires k < |items| && decode(items[k]).Err?
    requires forall i | 0 <= i < k :: decode(items[i]).Ok?
    ensures MapThrowing(items, decode) == Err(decode(items[k]).failure)
  {
    if k > 0 {
      assert decode(items[0]).Ok?;
      assert forall i | 0 <= i < k - 1 :: items[1..][i] == items[i + 1];
      MapThrowingFirstFailure(items[1..], decode, k - 1);
    }
  }

  /**
    The load effect's decision on a parsed record: a `history` that is falsy or an `index` that is
    not a number leaves the session alone; a `history` array and a numeric `index` are restored,
    the index unchecked; a null record, a `history` that is not an array or an entry that does not
    decode throws, and the record is discarded.
   */
  function LoadSaved(saved: JsValue): (r: LoadOutcome)
    ensures r.Restored? ==>
      saved.Obj? && "index" in saved.props && saved.props["index"] == Num(r.index) &&
      "history" in saved.props && saved.props["history"].Arr? &&
      LoadItems(saved.props["history"].elems) == Ok(r.history)
    ensures saved.Null? || saved.Undefined? ==> r.Discarded? && r.failure.kind == TypeError
    ensures !saved.Obj? && !saved.Null? && !saved.Undefined? ==> r.Untouched?
    ensures saved.Obj? && ("history" !in saved.props || !Truthy(saved.props["history"])) ==> r.Untouched?
    ensures saved.Obj? && ("index" !in saved.props || !saved.props["index"].Num?) ==> r.Untouched?
    ensures saved.Obj? && "history" in saved.props && "index" in saved.props ==>
      (saved.props["history"].Arr? && saved.props["index"].Num? ==>
       r == match LoadItems(saved.props["history"].elems)
            case Ok(files) => Restored(files, saved.props["index"].n)
            case Err(e) => Discarded(e))
    ensures saved.Obj? && "history" in saved.props && "index" in saved.props ==>
      (Truthy(saved.props["history"]) && !saved.props["history"].Arr? && saved.props["index"].Num? ==>
       r.Discarded? && r.failure.kind == TypeError)
  {
    assert saved.Obj? && "history" in saved.props ==> ReadProp(saved, "history") == Ok(saved.props["history"]);
    assert saved.Obj? && "index" in saved.props ==> ReadProp(saved, "index") == Ok(saved.props["index"]);
    match ReadProp(saved, "history")
    case Err(e) => Discarded(e)
    case Ok(hist) =>
      var idx := ReadProp(saved, "index").value;
      if !Truthy(hist) || !idx.Num? then Untouched
      else
        match hist
        case Arr(items) =>
          (match LoadItems(items)
           case Err(e) => Discarded(e)
           case Ok(files) => Restored(files, idx.n))
        case _ => Discarded(Failure(TypeError, "savedSession.history.map is not a function"))
  }

  /**
    The load effect: nothing under the key, or an empty text, leaves the session alone; a text
    JSON.parse rejects is discarded; a parsed record is judged by LoadSaved.
   */
  function Load(store: Store): (r: LoadOutcome)
    ensures SessionKey !in store ==> r.Untouched?
    ensures SessionKey in store && store[SessionKey].Json? ==> r == LoadSaved(store[SessionKey].value)
    ensures SessionKey in store && store[SessionKey].EmptyText? ==> r.Untouched?
    ensures SessionKey in store && store[SessionKey].Unparsable? ==> r.Discarded? && r.failure.kind == SyntaxError
    ensures r.Restored? ==> SessionKey in store && store[SessionKey].Json?
  {
    if SessionKey !in store then Untouched
    else
      match store[SessionKey]
      case EmptyText => Untouched
      case Unparsable => Discarded(Failure(SyntaxError, "Unexpected token in JSON"))
      case Json(saved) => LoadSaved(saved)
  }

  /** The store after the load effect: a discarded record's key is removed. */
  function AfterLoad(store: Store, out: LoadOutcome): (r: Store)
    ensures out.Discarded? ==> SessionKey !in r && forall k | k in store && k != SessionKey :: k in r
    ensures !out.Discarded? ==> r == store
  {
    if out.Discarded? then store - {SessionKey} else store
  }

  /** Applying an outcome to the session: `setHistory` and `setHistoryIndex` on a restore. */
  function Apply(v: History.View, out: LoadOutcome): History.View {
    if out.Restored? then History.View(out.history, out.index, v.pending) else v
  }

  // ---------------------------------------------------------------------------------------------
  // Save then load
  // ---------------------------------------------------------------------------------------------

  /** A file that survives the trip through its data URL: a non-empty, normal, header-safe type. */
  predicate Restorable(f: Artifact) {
    IsNormalType(f.mimeType) && IsHeaderSafe(f.mimeType)
  }

  /** One saved entry decodes back to its file. */
  lemma LoadRecord(f: Artifact)
    requires Restorable(f)
    ensures LoadItem(FileRecord(f)) == Ok(f)
  {
    var item := FileRecord(f);
    assert "dataUrl" in item.props && item.props["dataUrl"] == Str(FileToDataUrl(f));
    assert "name" in item.props && JsToString(item.props["name"]) == f.name;
    LoadItemOfString(item);
    FileRoundTrip(f);
  }

  /** The saved entries decode back to the files, in order. */
  lemma LoadRecords(h: seq<Artifact>)
    requires forall i | 0 <= i < |h| :: Restorable(h[i])
    ensures LoadItems(FileRecords(h)) == Ok(h)
  {
    var items := FileRecords(h);
    forall i | 0 <= i < |h| ensures LoadItem(items[i]) == Ok(h[i]) {
      LoadRecord(h[i]);
    }
    MapThrowingAllOk(items, LoadItem);
    assert LoadItems(items).value == h;
  }

  /**
    Loading what the auto-save wrote restores the same files, in the same order, under the same
    names, with the same cursor, whatever that cursor is.
   */
  lemma LoadSave(store: Store, h: seq<Artifact>, index: int)
    requires |h| > 0 && forall i | 0 <= i < |h| :: Restorable(h[i])
    ensures Load(Save(store, h, index)) == Restored(h, index)
  {
    var saved := SessionValue(h, index);
    assert Save(store, h, index)[SessionKey] == Json(saved);
    LoadSavedSession(h, index);
  }

  /**
    A write that fails leaves the record of an earlier save in place, so the next load restores
    that earlier session and not the current one.
   */
  lemma FailedSaveKeepsEarlier(store: Store, h0: seq<Artifact>, i0: int, h: seq<Artifact>, index: int)
    requires |h0| > 0 && forall i | 0 <= i < |h0| :: Restorable(h0[i])
    requires |h| > 0
    ensures Load(SaveAttempt(Save(store, h0, i0), h, index, false)) == Restored(h0, i0)
  {
    LoadSave(store, h0, i0);
  }

  lemma LoadSavedSession(h: seq<Artifact>, index: int)
    requires |h| > 0 && forall i | 0 <= i < |h| :: Restorable(h[i])
    ensures LoadSaved(SessionValue(h, index)) == Restored(h, index)
  {
    LoadRecords(h);
    LoadSavedRecord(FileRecords(h), index);
  }

  /** A record with an array `history` and a numeric `index` is judged by its entries alone. */
  lemma LoadSavedRecord(items: seq<JsValue>, index: int)
    ensures var r := LoadSaved(Obj(map["history" := Arr(items), "index" := Num(index)]));
      (LoadItems(items).Ok? ==> r == Restored(LoadItems(items).value, index)) &&
      (LoadItems(items).Err? ==> r == Discarded(LoadItems(items).failure))
  {
    var saved := Obj(map["history" := Arr(items), "index" := Num(index)]);
    assert ReadProp(saved, "history") == Ok(Arr(items));
    assert ReadProp(saved, "index") == Ok(Num(index));
    assert Truthy(Arr(items));
    var r := LoadItems(items);
    if r.Ok? {
      assert LoadSaved(saved) == Restored(r.value, index);
    } else {
      assert LoadSaved(saved) == Discarded(r.failure);
    }
  }

  /** An empty history saves nothing, and loading then leaves the session alone. */
  lemma LoadSaveEmpty(store: Store, index: int)
    ensures Load(Save(store, [], index)) == Untouched
  {
  }

  /**
    The load effect does not check the cursor against the list: a record whose index lies outside
    it is restored as it stands, breaking the cursor invariant.
   */
  lemma LoadAcceptsAnyIndex(store: Store, h: seq<Artifact>, index: int)
    requires |h| > 0 && forall i | 0 <= i < |h| :: Restorable(h[i])
    requires index < 0 || index >= |h|
    ensures Load(Save(store, h, index)) == Restored(h, index)
    ensures !History.Inv(Apply(History.Initial, Load(Save(store, h, index))))
  {
    LoadSave(store, h, index);
  }

  /**
    A record holding an entry that does not decode is thrown away, with the failure of the first
    such entry.
   */
  lemma BadEntryDiscarded(items: seq<JsValue>, index: int, k: nat)
    requires k < |items| && LoadItem(items[k]).Err?
    requires forall i | 0 <= i < k :: LoadItem(items[i]).Ok?
    ensures LoadSaved(Obj(map["history" := Arr(items), "index" := Num(index)])) == Discarded(LoadItem(items[k]).failure)
  {
    MapThrowingFirstFailure(items, LoadItem, k);
    LoadSavedRecord(items, index);
  }

  // ---------------------------------------------------------------------------------------------
  // Mounting
  // ---------------------------------------------------------------------------------------------

  /**
    Mounting as written: the auto-save effect is declared first, so it runs first, with the empty
    initial history, and removes the key before the load effect reads it.
   */
  function MountAsWritten(store: Store): (History.View, Store) {
    var s1 := Save(store, History.Initial.history, History.Initial.index);
    var out := Load(s1);
    (Apply(History.Initial, out), AfterLoad(s1, out))
  }

  /** As written, a saved session is never restored and its key is gone after mounting. */
  lemma MountAsWrittenForgets(store: Store, h: seq<Artifact>, index: int)
    requires |h| > 0 && forall i | 0 <= i < |h| :: Restorable(h[i])
    ensures Load(Save(store, h, index)) == Restored(h, index)
    ensures MountAsWritten(Save(store, h, index)).0 == History.Initial
    ensures SessionKey !in MountAsWritten(Save(store, h, index)).1
  {
    LoadSave(store, h, index);
  }

  /**
    Mounting with the load effect first: it reads the key, then the save effect runs with the
    initial empty history, and after a restore runs again with the restored one.
   */
  function Mount(store: Store): (r: (History.View, Store))
    ensures r.0.pending.None?
    ensures !Load(store).Restored? ==> r == (History.Initial, store - {SessionKey})
    ensures Load(store).Restored? ==>
      r.0 == History.View(Load(store).history, Load(store).index, None) &&
      r.1 == Save(store, Load(store).history, Load(store).index)
  {
    var out := Load(store);
    var s1 := AfterLoad(store, out);
    var s2 := Save(s1, History.Initial.history, History.Initial.index);
    var v := Apply(History.Initial, out);
    assert s2 == store - {SessionKey} by {
      assert s1 - {SessionKey} == store - {SessionKey};
    }
    MountSaveAgain(store, v.history, v.index);
    (v, if out.Restored? then Save(s2, v.history, v.index) else s2)
  }

  /** The restored session's save after the initial empty one lands where a single save would. */
  lemma MountSaveAgain(store: Store, h: seq<Artifact>, index: int)
    ensures Save(store - {SessionKey}, h, index) == Save(store, h, index)
  {
    if |h| > 0 {
      SaveOverwrites(store, h, index);
    } else {
      assert store - {SessionKey} - {SessionKey} == store - {SessionKey};
    }
  }

  /** A saved session is restored on mount and written back unchanged. */
  lemma MountRestores(store: Store, h: seq<Artifact>, index: int)
    requires |h| > 0 && forall i | 0 <= i < |h| :: Restorable(h[i])
    ensures Mount(Save(store, h, index)) == (History.View(h, index, None), Save(store, h, index))
  {
    var s := Save(store, h, index);
    LoadSave(store, h, index);
    var out := Load(s);
    assert out == Restored(h, index);
    assert AfterLoad(s, out) == s;
    var s2 := Save(s, [], -1);
    assert Apply(History.Initial, out) == History.View(h, index, None);
    SaveOverwrites(s, h, index);
    SaveIdempotent(store, h, index);
    assert Save(s2, h, index) == s;
  }

  /** A write of a non-empty history replaces whatever an earlier save or removal left. */
  lemma SaveOverwrites(store: Store, h: seq<Artifact>, index: int)
    requires |h| > 0
    ensures Save(Save(store, [], -1), h, index) == Save(store, h, index)
  {
  }
}
