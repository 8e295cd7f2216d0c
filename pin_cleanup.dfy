/** The nightly pin clean-up of the Firebase back end (`deleteOldPins` and
    `saveLogLocally`): every pin last updated before a 30-day cutoff has its
    uploaded image removed from Storage, is logged without its `imageUrl` to the
    Firestore collection `deleted_pins_log` and to a local JSON file, and then
    has its own deletion queued.

    The services are modelled by what they record (`Services`); the snapshot of
    outdated pins, the clock readings, the outcome of each Firestore write and
    of each pin deletion, and `decodeURIComponent` are inputs. */
module PinCleanup {

  datatype Option<T> = None | Some(value: T)

  // ---------------------------------------------------------------------------
  // The 30-day cutoff

  const MsPerDay := 24 * 60 * 60 * 1000

  /** `now - 30 * 24 * 60 * 60 * 1000`, in milliseconds since the epoch. */
  function Cutoff(nowMs: int): (c: int)
    ensures nowMs - c == 2592000000
  {
    nowMs - 30 * MsPerDay
  }

  /** The query's `lastUpdated < cutoff`: the pin is more than thirty whole days
      old. */
  lemma OutdatedMeansOlderThanThirtyDays(nowMs: int, lastUpdatedMs: int)
    ensures lastUpdatedMs < Cutoff(nowMs) <==> nowMs - lastUpdatedMs > 30 * MsPerDay
  {
  }

  // ---------------------------------------------------------------------------
  // The storage path: `imageUrl.match(/\/o\/(.*?)\?/)`

  /** The characters JavaScript's `.` does not match. */
  predicate IsLineTerminator(c: char)
  {
    c == '\n' || c == '\r' || c == '\U{2028}' || c == '\U{2029}'
  }

  /** The three characters `/o/` start at position `s`. */
  predicate MarkerAt(u: string, s: int)
  {
    0 <= s && s + 3 <= |u| && u[s] == '/' && u[s + 1] == 'o' && u[s + 2] == '/'
  }

  /** Declaratively: the regex can match with `/o/` at `s` and the `\?` at `e`. */
  predicate GroupEndsAt(u: string, s: int, e: int)
  {
    && MarkerAt(u, s) && s + 3 <= e < |u|
    && u[e] == '?'
    && forall k :: s + 3 <= k < e ==> !IsLineTerminator(u[k])
  }

  /** Declaratively: the regex matches somewhere when started at position `s`. */
  ghost predicate MatchesAt(u: string, s: int)
  {
    exists e :: GroupEndsAt(u, s, e)
  }

  /** The lazy `(.*?)\?` from position `i`: the first `?`, unless a line
      terminator comes first. */
  function LazyGroupEnd(u: string, i: nat): (e: Option<nat>)
    ensures e.Some? ==> i <= e.value < |u|
    decreases |u| - i
  {
    if i >= |u| then None
    else if u[i] == '?' then Some(i)
    else if IsLineTerminator(u[i]) then None
    else LazyGroupEnd(u, i + 1)
  }

  lemma {:induction false} LazyGroupEndFindsFirstMark(u: string, i: nat)
    ensures match LazyGroupEnd(u, i)
      case Some(e) =>
        && i <= e < |u| && u[e] == '?'
        && forall k :: i <= k < e ==> u[k] != '?' && !IsLineTerminator(u[k])
      case None =>
        forall e :: i <= e < |u| && u[e] == '?' ==> exists k :: i <= k < e && IsLineTerminator(u[k])
    decreases |u| - i
  {
    if i < |u| && u[i] != '?' && !IsLineTerminator(u[i]) {
      LazyGroupEndFindsFirstMark(u, i + 1);
      if LazyGroupEnd(u, i + 1).None? {
        forall e | i <= e < |u| && u[e] == '?'
          ensures exists k :: i <= k < e && IsLineTerminator(u[k])
        {
          var k :| i + 1 <= k < e && IsLineTerminator(u[k]);
        }
      }
    }
  }

  /** The regex engine: try each start position from `s` on, and take the first
      one at which `/o/` is followed by a lazily reached `?`. The result is the
      span of the captured group. */
  function MatchFrom(u: string, s: nat): (r: Option<(nat, nat)>)
    ensures r.Some? ==> s + 3 <= r.value.0 <= r.value.1 < |u|
    decreases |u| - s
  {
    if s + 3 > |u| then None
    else if MarkerAt(u, s) && LazyGroupEnd(u, s + 3).Some? then Some((s + 3, LazyGroupEnd(u, s + 3).value))
    else MatchFrom(u, s + 1)
  }

  /** The group `MatchFrom` captures starts right after the leftmost position at
      which the regex matches, and ends at the first `?` after it. */
  lemma {:induction false} MatchFromIsLeftmost(u: string, s: nat)
    ensures match MatchFrom(u, s)
      case Some(span) =>
        && s + 3 <= span.0
        && GroupEndsAt(u, span.0 - 3, span.1)
        && (forall k :: span.0 <= k < span.1 ==> u[k] != '?')
        && forall t :: s <= t < span.0 - 3 ==> !MatchesAt(u, t)
      case None =>
        forall t :: s <= t ==> !MatchesAt(u, t)
    decreases |u| - s
  {
    if s + 3 <= |u| {
      LazyGroupEndFindsFirstMark(u, s + 3);
      if LazyGroupEnd(u, s + 3).None? {
        NoMatchWithoutMark(u, s);
      }
      if !(MarkerAt(u, s) && LazyGroupEnd(u, s + 3).Some?) {
        MatchFromIsLeftmost(u, s + 1);
      }
    }
  }

  /** A start position whose lazy group runs into a line terminator (or the end)
      before any `?` does not match. */
  lemma NoMatchWithoutMark(u: string, s: nat)
    requires s + 3 <= |u|
    requires LazyGroupEnd(u, s + 3).None?
    requires forall e :: s + 3 <= e < |u| && u[e] == '?' ==> exists k :: s + 3 <= k < e && IsLineTerminator(u[k])
    ensures !MatchesAt(u, s)
  {
  }

  /** `match[1]` of `imageUrl.match(/\/o\/(.*?)\?/)`, or `None` when the regex
      does not match. */
  function ExtractStoragePath(u: string): Option<string>
  {
    match MatchFrom(u, 0)
    case Some(span) => Some(u[span.0..span.1])
    case None => None
  }

  /** The regex matches exactly when some start position does, and the captured
      text never holds a `?` or a line terminator. */
  lemma ExtractStoragePathMatches(u: string)
    ensures var r := ExtractStoragePath(u);
      && (r.Some? <==> exists t :: MatchesAt(u, t))
      && (r.Some? ==> forall k :: 0 <= k < |r.value| ==> r.value[k] != '?' && !IsLineTerminator(r.value[k]))
  {
    MatchFromIsLeftmost(u, 0);
    if MatchFrom(u, 0).Some? {
      var span := MatchFrom(u, 0).value;
      assert MatchesAt(u, span.0 - 3);
      var c := u[span.0..span.1];
      assert forall k :: 0 <= k < |c| ==> c[k] == u[span.0 + k];
    }
  }

  /** The regex captures `c` with its `/o/` at `s`. */
  predicate CapturesAt(u: string, s: int, c: string)
  {
    GroupEndsAt(u, s, s + 3 + |c|) && u[s + 3..s + 3 + |c|] == c
  }

  /** The captured text sits between the leftmost matching `/o/` and the first
      `?` after it. */
  lemma ExtractedPathIsLeftmostGroup(u: string)
    requires ExtractStoragePath(u).Some?
    ensures var c := ExtractStoragePath(u).value;
      && (exists s :: CapturesAt(u, s, c) && forall t :: 0 <= t < s ==> !MatchesAt(u, t))
      && forall k :: 0 <= k < |c| ==> c[k] != '?'
  {
    ExtractStoragePathMatches(u);
    MatchFromIsLeftmost(u, 0);
    var span := MatchFrom(u, 0).value;
    var s := span.0 - 3;
    assert CapturesAt(u, s, ExtractStoragePath(u).value);
  }

  /** `if (match && match[1])`: an image is deleted only for a non-empty group. */
  function StoragePathToDelete(u: string): (r: Option<string>)
    ensures r.Some? ==> r.value != [] && ExtractStoragePath(u) == r
    ensures r.None? ==> ExtractStoragePath(u).None? || ExtractStoragePath(u) == Some([])
  {
    match ExtractStoragePath(u)
    case Some(c) => if c != [] then Some(c) else None
    case None => None
  }

  /** A path is deleted only when the URL holds `/o/`, later a `?`, and
      non-empty text without line terminators between them. */
  lemma DeletedPathNeedsMarkers(u: string)
    requires StoragePathToDelete(u).Some?
    ensures var c := StoragePathToDelete(u).value;
      c != [] && exists s :: CapturesAt(u, s, c)
  {
    ExtractedPathIsLeftmostGroup(u);
  }

  /** The regex's answer is fixed by where its leftmost match lies: with `/o/`
      at `s`, no match starting earlier, and `e` the first `?` after `s + 3`
      with no line terminator before it, the captured text is `u[s + 3..e]`. */
  lemma ExtractStoragePathFrom(u: string, s: int, e: int)
    requires GroupEndsAt(u, s, e)
    requires forall k :: s + 3 <= k < e ==> u[k] != '?'
    requires forall t :: 0 <= t < s ==> !MatchesAt(u, t)
    ensures ExtractStoragePath(u) == Some(u[s + 3..e])
  {
    MatchFromIsLeftmost(u, 0);
    assert MatchesAt(u, s);
    var span := MatchFrom(u, 0).value;
    assert MatchesAt(u, span.0 - 3);
    assert span.0 - 3 == s;
  }

  /** A download URL path yields its encoded object path, up to the query. */
  lemma DownloadUrlPath()
    ensures StoragePathToDelete("/o/pins%2Fa.jpg?alt=media") == Some("pins%2Fa.jpg")
  {
    var u := "/o/pins%2Fa.jpg?alt=media";
    assert forall k :: 0 <= k < 12 ==> u[3..15][k] == "pins%2Fa.jpg"[k];
    assert u[3..15] == "pins%2Fa.jpg";
    assert MarkerAt(u, 0) && u[15] == '?';
    assert forall k :: 3 <= k < 15 ==> u[k] != '?' && !IsLineTerminator(u[k]);
    ExtractStoragePathFrom(u, 0, 15);
  }

  /** The leftmost match wins even when its group is empty: no image is deleted
      although a later `/o/...?` would have given a path. */
  lemma EmptyFirstGroupHidesLaterPath()
    ensures ExtractStoragePath("/o/?/o/a.jpg?") == Some("")
    ensures StoragePathToDelete("/o/?/o/a.jpg?") == None
    ensures MatchesAt("/o/?/o/a.jpg?", 4)
  {
    var u := "/o/?/o/a.jpg?";
    ExtractStoragePathFrom(u, 0, 3);
    assert u[3..3] == "";
    assert GroupEndsAt(u, 4, 12);
  }

  // ---------------------------------------------------------------------------
  // The log document id: `new Date().toISOString().replace(/[:.]/g, "-")`

  function Dash(c: char): char
  {
    if c == ':' || c == '.' then '-' else c
  }

  /** Every `:` and `.` becomes `-`; the length and every other character stay. */
  function TimestampId(iso: string): (id: string)
    ensures |id| == |iso|
    ensures forall k :: 0 <= k < |id| ==> id[k] != ':' && id[k] != '.'
    ensures forall k :: 0 <= k < |id| ==> (iso[k] == ':' || iso[k] == '.' ==> id[k] == '-')
    ensures forall k :: 0 <= k < |id| ==> (iso[k] != ':' && iso[k] != '.' ==> id[k] == iso[k])
  {
    if iso == [] then [] else [Dash(iso[0])] + TimestampId(iso[1..])
  }

  /** Sanitising an id that is already sanitised changes nothing. */
  lemma TimestampIdIsIdempotent(iso: string)
    ensures TimestampId(TimestampId(iso)) == TimestampId(iso)
  {
    var once := TimestampId(iso);
    assert forall k :: 0 <= k < |once| ==> TimestampId(once)[k] == once[k];
  }

  lemma TimestampIdOfIsoString()
    ensures TimestampId("00:00.5Z") == "00-00-5Z"
  {
  }

  // ---------------------------------------------------------------------------
  // Records

  /** A Firestore field value, as far as JavaScript truthiness and `.match` care. */
  datatype Value = Str(s: string) | Num(x: real) | Bool(b: bool) | Null | Other

  type Record = map<string, Value>

  /** JavaScript truthiness (`NaN` aside); an absent key reads as `undefined`. */
  predicate Truthy(v: Value)
  {
    match v
    case Str(s) => s != []
    case Num(x) => x != 0.0
    case Bool(b) => b
    case Null => false
    case Other => true
  }

  /** `{ ...originalData }` followed by `delete cleanedData.imageUrl`. */
  function WithoutImageUrl(r: Record): (c: Record)
    ensures "imageUrl" !in c
    ensures c.Keys == r.Keys - {"imageUrl"}
    ensures forall k :: k in c ==> c[k] == r[k]
  {
    r - {"imageUrl"}
  }

  /** A JavaScript object whose properties are updated in place. */
  class JsObject {
    var props: Record

    constructor (props: Record)
      ensures this.props == props
    {
      this.props := props;
    }

    /** `{ ...source }`: a new object with the same own properties. */
    constructor Spread(source: JsObject)
      ensures props == source.props
    {
      props := source.props;
    }

    /** `delete obj[key]`. */
    method Delete(key: string)
      modifies this
      ensures props == old(props) - {key}
    {
      props := props - {key};
    }
  }

  /** `{ ...originalData }` then `delete cleanedData.imageUrl`: the cleaned copy is a new object holding the original's
      properties without `imageUrl`; the original is left as it was. */
  method CleanedCopy(original: JsObject) returns (cleaned: JsObject)
    ensures fresh(cleaned)
    ensures cleaned.props == WithoutImageUrl(original.props)
    ensures unchanged(original)
  {
    cleaned := new JsObject.Spread(original);
    cleaned.Delete("imageUrl");
  }

  /** `{ id: idIso, timestamp: timestampIso, ...logData }`: the keys of
      `logData` come last and so override the generated `id` and `timestamp`. */
  function LogEntry(logData: Record, idIso: string, timestampIso: string): (e: Record)
    ensures e.Keys == logData.Keys + {"id", "timestamp"}
    ensures forall k :: k in logData ==> e[k] == logData[k]
    ensures "id" !in logData ==> e["id"] == Str(idIso)
    ensures "timestamp" !in logData ==> e["timestamp"] == Str(timestampIso)
  {
    map["id" := Str(idIso), "timestamp" := Str(timestampIso)] + logData
  }

  // ---------------------------------------------------------------------------
  // The local log file

  /** What `deleted_pins_log.json` holds: nothing, text `JSON.parse` rejects,
      a JSON value without `push` (not an array), or a list of entries. */
  datatype LogFile = Missing | Unparsable | NotAList | Entries(entries: seq<Record>)

  /** The `logs` list `saveLogLocally` starts from: the parsed list, or `[]`
      when the file is missing or unreadable. */
  function PriorEntries(f: LogFile): seq<Record>
  {
    if f.Entries? then f.entries else []
  }

  /** The file after a successful `saveLogLocally(logData)`. */
  function Appended(f: LogFile, entry: Record): LogFile
  {
    Entries(PriorEntries(f) + [entry])
  }

  /** The log is append-only: one more entry at the end, the earlier ones
      (none if the file was missing or unreadable) kept as they were. */
  lemma AppendedKeepsPrior(f: LogFile, entry: Record)
    ensures var g := Appended(f, entry);
      && g.Entries? && |g.entries| == |PriorEntries(f)| + 1
      && g.entries[..|PriorEntries(f)|] == PriorEntries(f)
      && g.entries[|PriorEntries(f)|] == entry
      && (f.Entries? ==> g.entries[..|f.entries|] == f.entries)
  {
    var g := Appended(f, entry);
    assert g.entries[..|PriorEntries(f)|] == PriorEntries(f);
  }

  // ---------------------------------------------------------------------------
  // One pass of `deleteOldPins`

  /** A document of the snapshot: its id and `doc.data()`. */
  datatype Doc = Doc(id: string, data: Record)

  /** What the outside world answers while one document is processed: the three
      `new Date().toISOString()` readings (for the Firestore log id, then the
      local entry's `id` and `timestamp`), whether the Firestore log write
      succeeds, and whether the pin's own deletion eventually succeeds. */
  datatype Answers = Answers(
    logIdIso: string,
    firestoreWriteOk: bool,
    entryIdIso: string,
    entryTimestampIso: string,
    pinDeleteOk: bool)

  /** What the image step does for one document: nothing, delete the image at
      a decoded path, or throw (a truthy `imageUrl` that is not a string has no
      `match`; `decodeURIComponent` throws on a malformed escape). */
  datatype ImageAction = NoImage | DeleteImage(path: string) | Throw

  function ImageStep(data: Record, decode: string -> Option<string>): ImageAction
  {
    if "imageUrl" !in data || !Truthy(data["imageUrl"]) then NoImage
    else match data["imageUrl"]
      case Str(u) =>
        (match StoragePathToDelete(u)
         case Some(p) => (match decode(p) case Some(path) => DeleteImage(path) case None => Throw)
         case None => NoImage)
      case _ => Throw
  }

  /** The image step throws exactly for a truthy `imageUrl` that is not a
      string, or for a string whose storage path `decodeURIComponent` rejects;
      it deletes an image exactly for a string whose storage path decodes. */
  lemma ImageStepThrowsExactly(data: Record, decode: string -> Option<string>)
    ensures ImageStep(data, decode).Throw? <==>
      && "imageUrl" in data && Truthy(data["imageUrl"])
      && (|| !data["imageUrl"].Str?
          || (StoragePathToDelete(data["imageUrl"].s).Some? && decode(StoragePathToDelete(data["imageUrl"].s).value).None?))
    ensures forall path :: ImageStep(data, decode) == DeleteImage(path) <==>
      && "imageUrl" in data && data["imageUrl"].Str? && Truthy(data["imageUrl"])
      && StoragePathToDelete(data["imageUrl"].s).Some?
      && decode(StoragePathToDelete(data["imageUrl"].s).value) == Some(path)
  {
  }

  /** The state of the services, as the clean-up sees it. */
  datatype Stores = Stores(
    imageDeletes: seq<string>,
    logCollection: map<string, Record>,
    logFile: LogFile,
    pinDeletes: seq<string>)

  /** The stores after one document, and whether the loop goes on. */
  datatype Step = Step(stores: Stores, ok: bool)

  /** The body of the `for` loop for one document. An exception leaves the
      effects of the steps before it in place and ends the pass. */
  function Visit(st: Stores, doc: Doc, a: Answers, decode: string -> Option<string>): Step
  {
    match ImageStep(doc.data, decode)
    case Throw => Step(st, false)
    case action =>
      var st1 := if action.DeleteImage? then st.(imageDeletes := st.imageDeletes + [action.path]) else st;
      var cleaned := WithoutImageUrl(doc.data);
      var st2 := if a.firestoreWriteOk
                 then st1.(logCollection := st1.logCollection[TimestampId(a.logIdIso) := cleaned])
                 else st1;
      if st2.logFile.NotAList? then Step(st2, false)
      else
        Step(st2.(logFile := Appended(st2.logFile, LogEntry(cleaned, a.entryIdIso, a.entryTimestampIso)),
                  pinDeletes := st2.pinDeletes + [doc.id]), true)
  }

  /** The paths the image step deletes for one document: none, or one. */
  function ImagePath(data: Record, decode: string -> Option<string>): seq<string>
  {
    match ImageStep(data, decode)
    case DeleteImage(p) => [p]
    case _ => []
  }

  /** One document's step goes on exactly when its image step does not throw
      and the log file is not a non-list value; then it deletes at most its
      image, appends one log entry and queues its pin's deletion. */
  lemma VisitEffects(st: Stores, doc: Doc, a: Answers, decode: string -> Option<string>)
    ensures var r := Visit(st, doc, a, decode);
      r.ok <==> !ImageStep(doc.data, decode).Throw? && !st.logFile.NotAList?
    ensures var r := Visit(st, doc, a, decode);
      r.ok ==>
        && r.stores.imageDeletes == st.imageDeletes + ImagePath(doc.data, decode)
        && r.stores.logFile == Appended(st.logFile, LogEntry(WithoutImageUrl(doc.data), a.entryIdIso, a.entryTimestampIso))
        && r.stores.pinDeletes == st.pinDeletes + [doc.id]
  {
  }

  /** The loop over the documents, as a fold from the left. */
  function Run(st: Stores, docs: seq<Doc>, answers: seq<Answers>, decode: string -> Option<string>): Step
    requires |answers| == |docs|
  {
    if docs == [] then Step(st, true)
    else
      var prev := Run(st, docs[..|docs| - 1], answers[..|docs| - 1], decode);
      if !prev.ok then prev else Visit(prev.stores, docs[|docs| - 1], answers[|docs| - 1], decode)
  }

  /** A document whose image step throws. */
  predicate Throws(doc: Doc, decode: string -> Option<string>)
  {
    ImageStep(doc.data, decode).Throw?
  }

  /** The ids of the documents, in snapshot order. */
  function Ids(docs: seq<Doc>): (ids: seq<string>)
    ensures |ids| == |docs| && forall k :: 0 <= k < |docs| ==> ids[k] == docs[k].id
  {
    if docs == [] then [] else Ids(docs[..|docs| - 1]) + [docs[|docs| - 1].id]
  }

  /** No document of the snapshot throws in its image step. */
  predicate NoneThrows(docs: seq<Doc>, decode: string -> Option<string>)
  {
    forall k :: 0 <= k < |docs| ==> !Throws(docs[k], decode)
  }

  lemma NoneThrowsExtends(docs: seq<Doc>, decode: string -> Option<string>)
    requires docs != []
    ensures NoneThrows(docs, decode) <==>
      NoneThrows(docs[..|docs| - 1], decode) && !Throws(docs[|docs| - 1], decode)
  {
    var init := docs[..|docs| - 1];
    assert forall k :: 0 <= k < |init| ==> init[k] == docs[k];
  }

  /** The pass runs to the end exactly when no document throws and the local
      log file, if it exists, is a list. Then exactly one pin deletion is queued
      per document, in snapshot order, whatever the clock said and whichever
      Firestore writes failed. */
  lemma {:induction false} RunQueuesOneDeletionPerDoc(st: Stores, docs: seq<Doc>, answers: seq<Answers>, decode: string -> Option<string>)
    requires |answers| == |docs|
    ensures var r := Run(st, docs, answers, decode);
      r.ok <==> docs == [] || (!st.logFile.NotAList? && NoneThrows(docs, decode))
    ensures var r := Run(st, docs, answers, decode);
      r.ok ==> r.stores.pinDeletes == st.pinDeletes + Ids(docs)
    ensures var r := Run(st, docs, answers, decode);
      docs != [] && r.ok ==> r.stores.logFile.Entries?
  {
    if docs != [] {
      var n := |docs| - 1;
      var init, initAnswers := docs[..n], answers[..n];
      RunQueuesOneDeletionPerDoc(st, init, initAnswers, decode);
      NoneThrowsExtends(docs, decode);
      var prev := Run(st, init, initAnswers, decode);
      if prev.ok {
        VisitEffects(prev.stores, docs[n], answers[n], decode);
        assert prev.stores.logFile.NotAList? == st.logFile.NotAList?;
      }
    }
  }

  /** The entries the pass adds to the local log, one per document. */
  function NewEntries(docs: seq<Doc>, answers: seq<Answers>): (es: seq<Record>)
    requires |answers| == |docs|
    ensures |es| == |docs|
  {
    if docs == [] then []
    else
      var n := |docs| - 1;
      NewEntries(docs[..n], answers[..n]) + [LogEntry(WithoutImageUrl(docs[n].data), answers[n].entryIdIso, answers[n].entryTimestampIso)]
  }

  /** A pass that runs to the end over a non-empty snapshot leaves the local log
      as the list it started from (empty if the file was missing or unreadable)
      followed by exactly one new entry per document; earlier entries are kept. */
  lemma {:induction false} RunAppendsOneEntryPerDoc(st: Stores, docs: seq<Doc>, answers: seq<Answers>, decode: string -> Option<string>)
    requires |answers| == |docs| && docs != []
    requires Run(st, docs, answers, decode).ok
    ensures Run(st, docs, answers, decode).stores.logFile == Entries(PriorEntries(st.logFile) + NewEntries(docs, answers))
  {
    var n := |docs| - 1;
    var init, initAnswers := docs[..n], answers[..n];
    var prev := Run(st, init, initAnswers, decode);
    var entry := LastEntryAppended(st, docs, answers, decode);
    if init == [] {
      assert prev.stores == st;
    } else {
      RunAppendsOneEntryPerDoc(st, init, initAnswers, decode);
    }
    var prior := PriorEntries(st.logFile);
    assert PriorEntries(prev.stores.logFile) == prior + NewEntries(init, initAnswers);
    assert prior + NewEntries(docs, answers) == (prior + NewEntries(init, initAnswers)) + [entry];
  }

  /** A complete pass appends the last document's entry to the log the rest
      of the snapshot left. */
  lemma LastEntryAppended(st: Stores, docs: seq<Doc>, answers: seq<Answers>, decode: string -> Option<string>) returns (entry: Record)
    requires |answers| == |docs| && docs != []
    requires Run(st, docs, answers, decode).ok
    ensures var n := |docs| - 1;
      var prev := Run(st, docs[..n], answers[..n], decode);
      && prev.ok
      && Run(st, docs, answers, decode).stores.logFile == Appended(prev.stores.logFile, entry)
      && NewEntries(docs, answers) == NewEntries(docs[..n], answers[..n]) + [entry]
  {
    var n := |docs| - 1;
    var prev := Run(st, docs[..n], answers[..n], decode);
    assert prev.ok;
    entry := LogEntry(WithoutImageUrl(docs[n].data), answers[n].entryIdIso, answers[n].entryTimestampIso);
    VisitEffects(prev.stores, docs[n], answers[n], decode);
  }

  /** The documents `st2` holds in the Firestore log that `st1` did not hold
      under the same id. */
  ghost predicate NewLogDocsLackImageUrl(st1: Stores, st2: Stores)
  {
    forall key :: key in st2.logCollection && (key !in st1.logCollection || st2.logCollection[key] != st1.logCollection[key]) ==>
      "imageUrl" !in st2.logCollection[key]
  }

  lemma VisitLogsNoImageUrl(st: Stores, doc: Doc, a: Answers, decode: string -> Option<string>)
    ensures NewLogDocsLackImageUrl(st, Visit(st, doc, a, decode).stores)
  {
  }

  /** The local log file `f` is `g` untouched, or `g`'s list (empty if `g`
      was missing or unreadable) followed by entries that lack `imageUrl`. */
  predicate FileGrewWithoutImageUrl(g: LogFile, f: LogFile)
  {
    var prior := PriorEntries(g);
    f == g ||
    (&& f.Entries? && |f.entries| >= |prior| && f.entries[..|prior|] == prior
     && forall k :: |prior| <= k < |f.entries| ==> "imageUrl" !in f.entries[k])
  }

  /** Neither log receives an `imageUrl`: every document a pass writes to the
      Firestore log lacks that key, and so does every entry it appends to the
      local file, whether the pass runs to the end or stops at an exception. */
  lemma {:induction false} RunLogsNoImageUrl(st: Stores, docs: seq<Doc>, answers: seq<Answers>, decode: string -> Option<string>)
    requires |answers| == |docs|
    ensures NewLogDocsLackImageUrl(st, Run(st, docs, answers, decode).stores)
    ensures FileGrewWithoutImageUrl(st.logFile, Run(st, docs, answers, decode).stores.logFile)
    ensures forall k :: 0 <= k < |docs| ==> "imageUrl" !in NewEntries(docs, answers)[k]
  {
    if docs != [] {
      var n := |docs| - 1;
      RunLogsNoImageUrl(st, docs[..n], answers[..n], decode);
      var prev := Run(st, docs[..n], answers[..n], decode);
      if prev.ok {
        VisitLogsNoImageUrl(prev.stores, docs[n], answers[n], decode);
        VisitEffects(prev.stores, docs[n], answers[n], decode);
        var r := Visit(prev.stores, docs[n], answers[n], decode);
        if r.ok {
          var entry := LogEntry(WithoutImageUrl(docs[n].data), answers[n].entryIdIso, answers[n].entryTimestampIso);
          AppendedKeepsPrior(prev.stores.logFile, entry);
          AppendedKeepsPrior(st.logFile, entry);
          AppendedGrows(st.logFile, prev.stores.logFile, entry);
        }
      }
    }
  }

  /** Appending an entry without `imageUrl` keeps a file that grew without
      `imageUrl` in that form. */
  lemma AppendedGrows(g: LogFile, f: LogFile, entry: Record)
    requires FileGrewWithoutImageUrl(g, f) && "imageUrl" !in entry
    ensures FileGrewWithoutImageUrl(g, Appended(f, entry))
  {
    var prior := PriorEntries(g);
    var h := Appended(f, entry);
    if f == g {
      assert h.entries[..|prior|] == prior;
    } else {
      assert h.entries == f.entries + [entry];
      assert h.entries[..|prior|] == f.entries[..|prior|];
    }
  }

  /** Images are deleted only for documents that carry a decodable storage
      path: the recorded deletions are the old ones followed by one decoded path
      per such document, in order. */
  function ImagePaths(docs: seq<Doc>, decode: string -> Option<string>): seq<string>
  {
    if docs == [] then []
    else
      var init := ImagePaths(docs[..|docs| - 1], decode);
      match ImageStep(docs[|docs| - 1].data, decode)
      case DeleteImage(p) => init + [p]
      case _ => init
  }

  lemma {:induction false} RunDeletesOnlyStoredImages(st: Stores, docs: seq<Doc>, answers: seq<Answers>, decode: string -> Option<string>)
    requires |answers| == |docs|
    requires Run(st, docs, answers, decode).ok
    ensures Run(st, docs, answers, decode).stores.imageDeletes == st.imageDeletes + ImagePaths(docs, decode)
  {
    if docs != [] {
      var n := |docs| - 1;
      var init, initAnswers := docs[..n], answers[..n];
      var prev := Run(st, init, initAnswers, decode);
      assert prev.ok;
      RunDeletesOnlyStoredImages(st, init, initAnswers, decode);
      assert Run(st, docs, answers, decode) == Visit(prev.stores, docs[n], answers[n], decode);
    }
  }

  /** Every pin deletion among the first `n` succeeded. */
  predicate PinDeletesOk(answers: seq<Answers>, n: int)
  {
    forall k :: 0 <= k < n && k < |answers| ==> answers[k].pinDeleteOk
  }

  /** How a pass ends: an empty snapshot returns early; otherwise the count is
      reported only when the pass ran to the end and every queued pin deletion
      succeeded (`Promise.all`); any exception ends in the catch-all. */
  datatype Outcome = NoOutdatedPins | Deleted(count: nat) | Failed

  function PassOutcome(st: Stores, docs: seq<Doc>, answers: seq<Answers>, decode: string -> Option<string>): (o: Outcome)
    requires |answers| == |docs|
    ensures o.Deleted? ==> o.count == |docs| > 0
  {
    if docs == [] then NoOutdatedPins
    else if Run(st, docs, answers, decode).ok && PinDeletesOk(answers, |answers|)
    then Deleted(|docs|)
    else Failed
  }

  /** A reported count is the number of pin deletions the pass queued. */
  lemma ReportedCountIsQueuedDeletions(st: Stores, docs: seq<Doc>, answers: seq<Answers>, decode: string -> Option<string>)
    requires |answers| == |docs|
    requires PassOutcome(st, docs, answers, decode).Deleted?
    ensures |Run(st, docs, answers, decode).stores.pinDeletes| == |st.pinDeletes| + PassOutcome(st, docs, answers, decode).count
  {
    RunQueuesOneDeletionPerDoc(st, docs, answers, decode);
  }

  // ---------------------------------------------------------------------------
  // The services and the imperative pass

  class Services {
    /** Paths passed to `bucket.file(path).delete()`. */
    var imageDeletes: seq<string>
    /** The Firestore collection `deleted_pins_log`, by document id. */
    var logCollection: map<string, Record>
    /** `deleted_pins_log.json`. */
    var logFile: LogFile
    /** Ids of the pins whose `doc.ref.delete()` was issued. */
    var pinDeletes: seq<string>

    function State(): Stores
      reads this
    {
      Stores(imageDeletes, logCollection, logFile, pinDeletes)
    }

    constructor (st: Stores)
      ensures State() == st
    {
      imageDeletes, logCollection, logFile, pinDeletes := st.imageDeletes, st.logCollection, st.logFile, st.pinDeletes;
    }

    /** `saveLogLocally(logData)`: read the list (or start from `[]`), push one
      entry, write it back. `ok` is false when `push` throws because the file
      holds JSON that is not a list; the file is then left as it was. */
    method SaveLogLocally(logData: Record, idIso: string, timestampIso: string) returns (ok: bool)
      modifies this`logFile
      ensures ok <==> !old(logFile).NotAList?
      ensures ok ==> logFile == Appended(old(logFile), LogEntry(logData, idIso, timestampIso))
      ensures !ok ==> logFile == old(logFile)
    {
      if logFile.NotAList? {
        return false;
      }
      var logs := PriorEntries(logFile);
      logs := logs + [map["id" := Str(idIso), "timestamp" := Str(timestampIso)] + logData];
      logFile := Entries(logs);
      ok := true;
    }

    /** The body of the `for` loop for one document: delete its image if its
      URL names one, log a copy without `imageUrl` to Firestore and to the
      local file, then queue the pin's own deletion. `ok` is false when one of
      these steps threw, which ends the loop. */
    method VisitDoc(doc: Doc, a: Answers, decode: string -> Option<string>) returns (ok: bool)
      modifies this
      ensures Step(State(), ok) == Visit(old(State()), doc, a, decode)
    {
      var original := new JsObject(doc.data);
      var action := ImageStep(original.props, decode);
      if action.Throw? {
        return false;
      }
      if action.DeleteImage? {
        imageDeletes := imageDeletes + [action.path];
      }
      var cleaned := CleanedCopy(original);
      var timestampId := TimestampId(a.logIdIso);
      if a.firestoreWriteOk {
        logCollection := logCollection[timestampId := cleaned.props];
      }
      ok := SaveLogLocally(cleaned.props, a.entryIdIso, a.entryTimestampIso);
      if ok {
        pinDeletes := pinDeletes + [doc.id];
      }
    }

    /** `deleteOldPins` over the snapshot `docs`: the services end in the state
      the fold `Run` describes, and the pass ends as `PassOutcome` says. */
    method DeleteOldPins(docs: seq<Doc>, answers: seq<Answers>, decode: string -> Option<string>) returns (outcome: Outcome)
      requires |answers| == |docs|
      modifies this
      ensures State() == Run(old(State()), docs, answers, decode).stores
      ensures outcome == PassOutcome(old(State()), docs, answers, decode)
    {
      ghost var st0 := State();
      if docs == [] {
        return NoOutdatedPins;
      }
      var i := 0;
      var allDeleted := true;
      while i < |docs|
        invariant 0 <= i <= |docs|
        invariant Run(st0, docs[..i], answers[..i], decode) == Step(State(), true)
        invariant allDeleted <==> PinDeletesOk(answers, i)
      {
        RunExtends(st0, docs, answers, decode, i);
        var ok := VisitDoc(docs[i], answers[i], decode);
        if !ok {
          RunStopsAtFailure(st0, docs, answers, decode, i + 1);
          return Failed;
        }
        allDeleted := allDeleted && answers[i].pinDeleteOk;
        PinDeletesOkExtends(answers, i);
        i := i + 1;
      }
      assert docs[..i] == docs && answers[..i] == answers;
      outcome := if allDeleted then Deleted(|docs|) else Failed;
    }
  }

  lemma PinDeletesOkExtends(answers: seq<Answers>, i: nat)
    requires i < |answers|
    ensures PinDeletesOk(answers, i + 1) <==> PinDeletesOk(answers, i) && answers[i].pinDeleteOk
  {
  }

  /** One more document extends the fold by one `Visit`, unless it had stopped. */
  lemma RunExtends(st: Stores, docs: seq<Doc>, answers: seq<Answers>, decode: string -> Option<string>, i: nat)
    requires |answers| == |docs| && i < |docs|
    ensures var prev := Run(st, docs[..i], answers[..i], decode);
      Run(st, docs[..i + 1], answers[..i + 1], decode) ==
        if prev.ok then Visit(prev.stores, docs[i], answers[i], decode) else prev
  {
    assert docs[..i + 1][..i] == docs[..i] && answers[..i + 1][..i] == answers[..i];
  }

  /** Once the pass stops at an exception, later documents change nothing. */
  lemma {:induction false} RunStopsAtFailure(st: Stores, docs: seq<Doc>, answers: seq<Answers>, decode: string -> Option<string>, i: nat)
    requires |answers| == |docs| && i <= |docs|
    requires !Run(st, docs[..i], answers[..i], decode).ok
    ensures Run(st, docs, answers, decode) == Run(st, docs[..i], answers[..i], decode)
    decreases |docs| - i
  {
    if i < |docs| {
      RunExtends(st, docs, answers, decode, i);
      RunStopsAtFailure(st, docs, answers, decode, i + 1);
    } else {
      assert docs[..i] == docs && answers[..i] == answers;
    }
  }
}
