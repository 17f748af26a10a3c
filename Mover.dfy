/** The file mover: every file under the source directory is either left for
    a later pass, moved unchanged to the destination, saved to the destination
    with its `EventDate` attribute made unique and then deleted, or, when
    `ProcessFile` throws, moved to the error directory under a tick suffix.
    The three directories are maps from file name to content; XML parsing is
    abstracted to the elements a document holds, in document order. */
module Mover {
  import opened Offsets
  import MemoryEngine
  import DbEngine

  datatype Result<T, E> = Ok(value: T) | Err(error: E)

  // ---------------------------------------------------------------------
  // Names and paths

  /** Position of the last occurrence of `c` in `s`. */
  function LastIndexOf(s: string, c: char): (r: Option<nat>)
    ensures r.Some? ==> r.value < |s| && s[r.value] == c && forall j :: r.value < j < |s| ==> s[j] != c
    ensures r.None? ==> forall j :: 0 <= j < |s| ==> s[j] != c
  {
    if s == [] then None
    else if s[|s| - 1] == c then Some(|s| - 1)
    else
      assert forall j :: 0 <= j < |s| - 1 ==> s[..|s| - 1][j] == s[j];
      LastIndexOf(s[..|s| - 1], c)
  }

  predicate EndsWith(s: string, suffix: string) {
    |suffix| <= |s| && s[|s| - |suffix|..] == suffix
  }

  /** `FileInfo.Name`: the part of a path after its last `\`. */
  function FileName(path: string): string {
    match LastIndexOf(path, '\\')
    case None => path
    case Some(k) => path[k + 1..]
  }

  /** The name is a suffix of the path with no `\` in it, and a path without
      a `\` is its own name. */
  lemma FileNameShape(path: string)
    ensures EndsWith(path, FileName(path))
    ensures forall j :: 0 <= j < |FileName(path)| ==> FileName(path)[j] != '\\'
    ensures (forall j :: 0 <= j < |path| ==> path[j] != '\\') ==> FileName(path) == path
  {
  }

  /** `FileInfo.Extension`: the name from its last `.` on, or empty when it
      has no `.` or ends in one. */
  function Extension(name: string): string {
    match LastIndexOf(name, '.')
    case None => ""
    case Some(k) => if k == |name| - 1 then "" else name[k..]
  }

  /** The extension is a suffix of the name: empty, or a `.` followed by at
      least one character and no further `.`. */
  lemma ExtensionShape(name: string)
    ensures EndsWith(name, Extension(name))
    ensures Extension(name) != [] ==>
      Extension(name)[0] == '.' && |Extension(name)| >= 2 && forall j :: 1 <= j < |Extension(name)| ==> Extension(name)[j] != '.'
  {
  }

  function Lower(c: char): char {
    if 'A' <= c <= 'Z' then (c as int - 'A' as int + 'a' as int) as char else c
  }

  /** `string.Compare(a, b, true) == 0`, with ASCII case folding. */
  predicate EqualsIgnoreCase(a: string, b: string) {
    |a| == |b| && forall j :: 0 <= j < |a| ==> Lower(a[j]) == Lower(b[j])
  }

  /** The test that sends a file down the XML path. */
  predicate IsXml(name: string) {
    EqualsIgnoreCase(Extension(name), ".xml")
  }

  /** A file takes the XML path exactly when its name ends in `.xml` in any
      mix of cases. */
  lemma IsXmlEndsWith(name: string)
    ensures IsXml(name) <==> |name| >= 4 && EqualsIgnoreCase(name[|name| - 4..], ".xml")
  {
    var n := |name|;
    if n >= 4 && EqualsIgnoreCase(name[n - 4..], ".xml") {
      assert Lower(name[n - 4]) == '.' && Lower(name[n - 3]) == 'x';
      assert Lower(name[n - 2]) == 'm' && Lower(name[n - 1]) == 'l';
      var k := LastIndexOf(name, '.');
      assert k == Some(n - 4);
      assert Extension(name) == name[n - 4..];
    }
  }

  /** The constructor's `if (!p.EndsWith("\\")) p += "\\";`. */
  function WithTrailingSeparator(p: string): (r: string)
    ensures EndsWith(r, "\\")
    ensures StartsWith(r, p) && |r| <= |p| + 1
  {
    if EndsWith(p, "\\") then p else p + "\\"
  }

  /** Normalising twice is normalising once, and a path that already ends in
      `\` is kept as it is. */
  lemma WithTrailingSeparatorIdempotent(p: string)
    ensures WithTrailingSeparator(WithTrailingSeparator(p)) == WithTrailingSeparator(p)
    ensures EndsWith(p, "\\") <==> WithTrailingSeparator(p) == p
  {
  }

  // ---------------------------------------------------------------------
  // The tick suffix of a quarantined file

  /** `long.ToString()` of a non-negative tick count. */
  function DecimalString(n: nat): (s: string)
    ensures |s| >= 1 && forall j :: 0 <= j < |s| ==> IsDigit(s[j])
    decreases n
  {
    if n < 10 then [Digit(n)] else DecimalString(n / 10) + [Digit(n % 10)]
  }

  /** Reads a string of digits back as a number. */
  function DecimalValue(s: string): nat
    requires forall j :: 0 <= j < |s| ==> IsDigit(s[j])
  {
    if s == [] then 0
    else
      assert forall j :: 0 <= j < |s| - 1 ==> s[..|s| - 1][j] == s[j];
      DecimalValue(s[..|s| - 1]) * 10 + DigitValue(s[|s| - 1])
  }

  lemma {:induction false} DecimalRoundTrip(n: nat)
    ensures DecimalValue(DecimalString(n)) == n
    decreases n
  {
    var s := DecimalString(n);
    if n >= 10 {
      DecimalRoundTrip(n / 10);
      assert s[..|s| - 1] == DecimalString(n / 10);
    }
  }

  /** `Name + "." + DateTime.UtcNow.Ticks`, the name in the error directory. */
  function QuarantineName(name: string, ticks: nat): string {
    name + "." + DecimalString(ticks)
  }

  /** Distinct ticks give distinct error names, so a file quarantined twice
      at different instants never collides with itself. */
  lemma QuarantineNamesDistinct(name: string, t1: nat, t2: nat)
    ensures QuarantineName(name, t1) == QuarantineName(name, t2) <==> t1 == t2
  {
    if QuarantineName(name, t1) == QuarantineName(name, t2) {
      var k := |name| + 1;
      assert QuarantineName(name, t1)[k..] == DecimalString(t1);
      assert QuarantineName(name, t2)[k..] == DecimalString(t2);
      DecimalRoundTrip(t1);
      DecimalRoundTrip(t2);
    }
  }

  // ---------------------------------------------------------------------
  // Directory checks

  datatype ConfigError = SourceMissing | DestinationMissing | ErrorMissing

  datatype Settings = Settings(source: string, destination: string, error: string)

  /** `DirectoryInfo(p).Exists`, over the directories that exist, each written
      with a trailing `\`. */
  predicate DirectoryExists(existing: set<string>, p: string) {
    WithTrailingSeparator(p) in existing
  }

  /** The constructor's checks, in its order: the source is checked as given,
      the destination and the error directory after normalisation. */
  function ValidateDirectories(source: string, destination: string, error: string, existing: set<string>): (r: Result<Settings, ConfigError>)
    ensures r == Err(SourceMissing) <==> !DirectoryExists(existing, source)
    ensures r == Err(DestinationMissing) <==> DirectoryExists(existing, source) && !DirectoryExists(existing, destination)
    ensures r == Err(ErrorMissing) <==>
      DirectoryExists(existing, source) && DirectoryExists(existing, destination) && !DirectoryExists(existing, error)
    ensures r.Ok? ==>
      r.value.source == source && EndsWith(r.value.destination, "\\") && EndsWith(r.value.error, "\\") &&
      DirectoryExists(existing, r.value.destination) && DirectoryExists(existing, r.value.error) &&
      StartsWith(r.value.destination, destination) && StartsWith(r.value.error, error)
  {
    if !DirectoryExists(existing, source) then Err(SourceMissing)
    else
      var d := WithTrailingSeparator(destination);
      WithTrailingSeparatorIdempotent(destination);
      if !DirectoryExists(existing, d) then Err(DestinationMissing)
      else
        var e := WithTrailingSeparator(error);
        WithTrailingSeparatorIdempotent(error);
        if !DirectoryExists(existing, e) then Err(ErrorMissing)
        else Ok(Settings(source, d, e))
  }

  // ---------------------------------------------------------------------
  // Documents

  /** An element of a loaded document: its tag and its attributes. */
  datatype Element = Element(tag: string, attributes: map<string, string>)

  /** A loaded document: its elements in document order, the order of
      `GetElementsByTagName`. */
  datatype Document = Document(elements: seq<Element>)

  ghost predicate IsFirstWithTag(elements: seq<Element>, tag: string, k: int) {
    0 <= k < |elements| && elements[k].tag == tag && forall j :: 0 <= j < k ==> elements[j].tag != tag
  }

  /** `GetElementsByTagName(tag).Item(0)`, as an index. */
  function FirstWithTag(elements: seq<Element>, tag: string): (r: Option<nat>)
    ensures r.Some? ==> IsFirstWithTag(elements, tag, r.value)
    ensures r.None? ==> forall j :: 0 <= j < |elements| ==> elements[j].tag != tag
  {
    if elements == [] then None
    else if elements[0].tag == tag then Some(0)
    else
      var r := FirstWithTag(elements[1..], tag);
      assert forall j :: 1 <= j < |elements| ==> elements[j] == elements[1..][j - 1];
      if r.None? then None else Some(r.value + 1)
  }

  /** `TryGetAttribute`: the attribute of the first element with the tag,
      when that element has it with a non-empty value; otherwise nothing.
      Later elements with the same tag are never consulted. */
  function TryGetAttribute(doc: Document, nodeName: string, attributeName: string): Option<string> {
    var k := FirstWithTag(doc.elements, nodeName);
    if k.None? then None
    else
      var attributes := doc.elements[k.value].attributes;
      if attributeName in attributes && attributes[attributeName] != "" then Some(attributes[attributeName]) else None
  }

  /** A value is found only on the first element with the tag, and there
      exactly when that element has the attribute with a non-empty value. */
  lemma TryGetAttributeFinds(doc: Document, nodeName: string, attributeName: string)
    ensures var r := TryGetAttribute(doc, nodeName, attributeName);
      (r.Some? ==> r.value != "" && exists k :: IsFirstWithTag(doc.elements, nodeName, k)) &&
      forall k :: IsFirstWithTag(doc.elements, nodeName, k) ==>
        (r.Some? <==> attributeName in doc.elements[k].attributes && doc.elements[k].attributes[attributeName] != "") &&
        (r.Some? ==> r.value == doc.elements[k].attributes[attributeName])
  {
  }

  /** `attributeNode.Value = value` on the node `TryGetAttribute` found. */
  function SetAttribute(doc: Document, nodeName: string, attributeName: string, value: string): Document {
    var k := FirstWithTag(doc.elements, nodeName);
    if k.None? then doc
    else
      var e := doc.elements[k.value];
      Document(doc.elements[k.value := Element(e.tag, e.attributes[attributeName := value])])
  }

  /** Writing one attribute leaves every other (tag, attribute) lookup as it
      was, whatever the value written. */
  lemma SetAttributeKeepsOthers(doc: Document, nodeName: string, attributeName: string, value: string, otherName: string, otherAttribute: string)
    ensures otherName != nodeName || otherAttribute != attributeName ==>
      TryGetAttribute(SetAttribute(doc, nodeName, attributeName, value), otherName, otherAttribute) == TryGetAttribute(doc, otherName, otherAttribute)
  {
    var patched := SetAttribute(doc, nodeName, attributeName, value);
    assert forall j :: 0 <= j < |doc.elements| ==> patched.elements[j].tag == doc.elements[j].tag;
    var j := FirstWithTag(doc.elements, otherName);
    if j.Some? {
      assert IsFirstWithTag(patched.elements, otherName, j.value);
    }
  }

  /** The attribute written reads back, and every other (tag, attribute)
      lookup is as it was. */
  lemma SetAttributeReadBack(doc: Document, nodeName: string, attributeName: string, value: string, otherName: string, otherAttribute: string)
    requires TryGetAttribute(doc, nodeName, attributeName).Some? && value != ""
    ensures TryGetAttribute(SetAttribute(doc, nodeName, attributeName, value), nodeName, attributeName) == Some(value)
    ensures otherName != nodeName || otherAttribute != attributeName ==>
      TryGetAttribute(SetAttribute(doc, nodeName, attributeName, value), otherName, otherAttribute) == TryGetAttribute(doc, otherName, otherAttribute)
  {
    var k := FirstWithTag(doc.elements, nodeName).value;
    var patched := SetAttribute(doc, nodeName, attributeName, value);
    assert forall j :: 0 <= j < |doc.elements| ==> patched.elements[j].tag == doc.elements[j].tag;
    assert IsFirstWithTag(patched.elements, nodeName, k);
    SetAttributeKeepsOthers(doc, nodeName, attributeName, value, otherName, otherAttribute);
  }

  // ---------------------------------------------------------------------
  // Files, the engine, and one file's fate

  /** A file's content: bytes as they arrived, with what `XmlDocument.Load`
      makes of them (nothing when they are not well-formed XML), or a
      document the mover saved. */
  datatype Content = Raw(bytes: seq<bv8>, parsed: Option<Document>) | Saved(document: Document)

  function Load(c: Content): Option<Document> {
    match c
    case Raw(_, parsed) => parsed
    case Saved(document) => Some(document)
  }

  /** What the `IUniqueifier` behind the mover remembers. */
  datatype EngineState =
    | MemoryState(history: int, queue: seq<MemoryEngine.Entry>)
    | DurableState(history: int, events: seq<DbEngine.Event>)

  /** `IUniqueifier.Uniquify` as the mover sees it: from the engine's state,
      an event date, a patient code and the `Created` instant, an answer and
      the engine's next state. The routing below holds for any such
      function; `Ask` is the one the two engines implement. */
  type Uniquifier = (EngineState, string, string, nat) -> (Outcome, EngineState)

  /** One `Uniquify` call on either variant; `now` is the `Created` instant
      the durable variant stamps its row with. */
  function Ask(engine: EngineState, eventDate: string, patientCode: string, now: nat): (Outcome, EngineState) {
    match engine
    case MemoryState(history, queue) =>
      var step := MemoryEngine.Step(history, queue, eventDate, patientCode);
      (step.0, MemoryState(history, step.1))
    case DurableState(history, events) =>
      var step := DbEngine.Step(history, events, eventDate, patientCode, now);
      (step.0, DurableState(history, step.1))
  }

  /** Whatever the engine remembers, a successful `Uniquify` gives the event
      date with a two-digit offset below 60 appended. */
  lemma AskGivesCandidate(engine: EngineState, eventDate: string, patientCode: string, now: nat)
    ensures Ask(engine, eventDate, patientCode, now).0.Unique? ==>
      exists i :: 0 <= i < Slots && Ask(engine, eventDate, patientCode, now).0.eventDate == Candidate(eventDate, i)
  {
    match engine
    case MemoryState(history, queue) =>
      MemoryEngine.ChooseIsFirstFree(MemoryEngine.Elements(queue), eventDate, patientCode);
    case DurableState(history, events) =>
      MemoryEngine.ChooseIsFirstFree(DbEngine.Keys(events), eventDate, patientCode);
  }

  /** The source tree (keyed by path below the source directory), the
      destination and error directories (keyed by file name) and the engine. */
  datatype State = State(source: map<string, Content>, destination: map<string, Content>, error: map<string, Content>, engine: EngineState)

  /** How `ProcessFile` returns when it does not throw. */
  datatype Handled = Skipped | MovedUnchanged | Patched(eventDate: string)

  /** The exception `ProcessFile` lets escape. */
  datatype Thrown = AlreadyInDestination | AccessRefused

  /** What became of one listed file. */
  datatype FileResult = Done(handled: Handled) | Quarantined(errorName: string) | Stuck

  /** `File.Move(file, destination + name)`. */
  function MoveToDestination(st: State, path: string, name: string): State
    requires path in st.source
  {
    st.(source := st.source - {path}, destination := st.destination[name := st.source[path]])
  }

  /** The value `TryGetAttribute` finds, if the content loads at all. */
  function Attribute(c: Content, nodeName: string, attributeName: string): Option<string> {
    var doc := Load(c);
    if doc.None? then None else TryGetAttribute(doc.value, nodeName, attributeName)
  }

  /** The XML branch of `ProcessFile`: anything that throws inside its `try`
      (no document, a missing attribute, seconds already present, an
      exhausted engine) ends in moving the unmodified file. */
  function ProcessXml(ask: Uniquifier, st: State, path: string, name: string, now: nat): (Handled, State)
    requires path in st.source
  {
    var content := st.source[path];
    var patientCode := Attribute(content, "Patient", "PatientCode");
    var eventDate := Attribute(content, "Event", "EventDate");
    if patientCode.None? || eventDate.None? || ColonCount(eventDate.value) > 1 then
      (MovedUnchanged, MoveToDestination(st, path, name))
    else
      var asked := ask(st.engine, eventDate.value, patientCode.value, now);
      var st1 := st.(engine := asked.1);
      if asked.0.Exhausted? then (MovedUnchanged, MoveToDestination(st1, path, name))
      else
        var patched := SetAttribute(Load(content).value, "Event", "EventDate", asked.0.eventDate);
        (Patched(asked.0.eventDate), st1.(source := st1.source - {path}, destination := st1.destination[name := Saved(patched)]))
  }

  /** `ProcessFile`: a missing or locked file is left for the next pass, a
      file whose exclusive open is refused for another reason throws out of
      `IsFileLocked`, a name already in the destination throws, a non-XML
      file is moved, an XML file takes the XML branch. */
  function ProcessFileSpec(ask: Uniquifier, st: State, path: string, access: Access, now: nat): (r: (Result<Handled, Thrown>, State))
    ensures r.0.Err? ==> path in st.source && r.1 == st
  {
    if path !in st.source || access == Locked then (Ok(Skipped), st)
    else if access == Refused then (Err(AccessRefused), st)
    else
      var name := FileName(path);
      if name in st.destination then (Err(AlreadyInDestination), st)
      else if !IsXml(name) then (Ok(MovedUnchanged), MoveToDestination(st, path, name))
      else
        var handled := ProcessXml(ask, st, path, name, now);
        (Ok(handled.0), handled.1)
  }

  /** The `catch` of `ProcessFiles`: the file goes to the error directory
      under a tick suffix; if that move fails (the file is gone or the name is
      taken) it stays where it is. */
  function MoveToError(st: State, path: string, ticks: nat): (FileResult, State) {
    var target := QuarantineName(FileName(path), ticks);
    if path !in st.source || target in st.error then (Stuck, st)
    else (Quarantined(target), st.(source := st.source - {path}, error := st.error[target := st.source[path]]))
  }

  /** What `file.Open(FileMode.Open, FileAccess.ReadWrite, FileShare.None)`
      does in `IsFileLocked`: it succeeds, it throws the `IOException` that
      reports a lock, or it throws anything else (such as the
      `UnauthorizedAccessException` of a read-only file), which `IsFileLocked`
      does not catch. */
  datatype Access = Free | Locked | Refused

  /** What the mover observes about one file when it comes to it: the
      exclusive open, and the clock for `Created` and the tick suffix. */
  datatype Probe = Probe(access: Access, now: nat, ticks: nat)

  /** One iteration of the `foreach` in `ProcessFiles`. */
  function FileStep(ask: Uniquifier, st: State, path: string, probe: Probe): (FileResult, State) {
    var tried := ProcessFileSpec(ask, st, path, probe.access, probe.now);
    if tried.0.Ok? then (Done(tried.0.value), tried.1) else MoveToError(tried.1, path, probe.ticks)
  }

  /** `ProcessFiles` over one listing, with one probe per listed path: each
      path in turn, from the state the one before it left. */
  function Pass(ask: Uniquifier, st: State, listing: seq<string>, probes: seq<Probe>): (seq<FileResult>, State)
    requires |probes| == |listing|
    decreases |listing|
  {
    if listing == [] then ([], st)
    else
      var first := FileStep(ask, st, listing[0], probes[0]);
      var rest := Pass(ask, first.1, listing[1..], probes[1..]);
      ([first.0] + rest.0, rest.1)
  }

  // ---------------------------------------------------------------------
  // What a pass guarantees

  /** Every file is somewhere: the number of files over the three
      directories. */
  function Total(st: State): nat {
    |st.source| + |st.destination| + |st.error|
  }

  lemma MapRemoveCard(m: map<string, Content>, k: string)
    requires k in m
    ensures |m - {k}| == |m| - 1
  {
    assert (m - {k}).Keys == m.Keys - {k};
  }

  lemma MapAddCard(m: map<string, Content>, k: string, c: Content)
    requires k !in m
    ensures |m[k := c]| == |m| + 1
  {
    assert m[k := c].Keys == m.Keys + {k};
  }

  /** The three things one iteration can do to the directories: nothing;
      take the file out of the source and put one new file under its name in
      the destination; or take it out of the source and put it, unchanged,
      under a new name in the error directory. */
  predicate OneMove(st: State, after: State, path: string, name: string, target: string) {
    (after.source == st.source && after.destination == st.destination && after.error == st.error) ||
    (path in st.source && name !in st.destination && name in after.destination &&
     after.source == st.source - {path} && after.destination == st.destination[name := after.destination[name]] &&
     after.error == st.error) ||
    (path in st.source && target !in st.error &&
     after.source == st.source - {path} && after.destination == st.destination &&
     after.error == st.error[target := st.source[path]])
  }

  lemma FileStepIsOneMove(ask: Uniquifier, st: State, path: string, probe: Probe)
    ensures OneMove(st, FileStep(ask, st, path, probe).1, path, FileName(path), QuarantineName(FileName(path), probe.ticks))
  {
    var name := FileName(path);
    if path in st.source && probe.access == Free && name !in st.destination && IsXml(name) {
      var after := ProcessXml(ask, st, path, name, probe.now).1;
      assert FileStep(ask, st, path, probe).1 == after;
      assert name in after.destination;
    }
  }

  lemma OneMoveConserves(st: State, after: State, path: string, name: string, target: string)
    requires OneMove(st, after, path, name, target)
    ensures Total(after) == Total(st)
  {
    if after.source != st.source {
      MapRemoveCard(st.source, path);
      if after.destination != st.destination {
        MapAddCard(st.destination, name, after.destination[name]);
      } else {
        MapAddCard(st.error, target, st.source[path]);
      }
    }
  }

  /** No file is lost or duplicated by one iteration. */
  lemma FileStepConserves(ask: Uniquifier, st: State, path: string, probe: Probe)
    ensures Total(FileStep(ask, st, path, probe).1) == Total(st)
  {
    FileStepIsOneMove(ask, st, path, probe);
    OneMoveConserves(st, FileStep(ask, st, path, probe).1, path, FileName(path), QuarantineName(FileName(path), probe.ticks));
  }

  /** One iteration never overwrites or removes a file in the destination or
      the error directory, never creates a source file, and touches no source
      file but the one it is given. */
  lemma FileStepKeepsOthers(ask: Uniquifier, st: State, path: string, probe: Probe)
    ensures var after := FileStep(ask, st, path, probe).1;
      (forall n :: n in st.destination ==> n in after.destination && after.destination[n] == st.destination[n]) &&
      (forall n :: n in st.error ==> n in after.error && after.error[n] == st.error[n]) &&
      after.source.Keys <= st.source.Keys &&
      (forall p :: p in st.source && p != path ==> p in after.source && after.source[p] == st.source[p])
  {
    FileStepIsOneMove(ask, st, path, probe);
  }

  /** A missing or locked file is left alone: nothing on disk and nothing in
      the engine changes. */
  lemma SkipsMissingOrLocked(ask: Uniquifier, st: State, path: string, probe: Probe)
    ensures FileStep(ask, st, path, probe).0 == Done(Skipped) <==> path !in st.source || probe.access == Locked
    ensures path !in st.source || probe.access == Locked ==> FileStep(ask, st, path, probe).1 == st
  {
  }

  /** A file whose exclusive open is refused (not for a lock) goes to the
      error directory under its tick suffix, or stays if that name is taken;
      the destination and the engine are untouched. */
  lemma RefusedGoesToError(ask: Uniquifier, st: State, path: string, probe: Probe)
    requires path in st.source && probe.access == Refused
    ensures var after := FileStep(ask, st, path, probe); var target := QuarantineName(FileName(path), probe.ticks);
      after.1.destination == st.destination && after.1.engine == st.engine &&
      (target !in st.error ==>
        after.0 == Quarantined(target) && path !in after.1.source && after.1.error == st.error[target := st.source[path]]) &&
      (target in st.error ==> after == (Stuck, st))
  {
  }

  /** A name already in the destination sends the file to the error
      directory under its tick suffix (or leaves it, if that name is taken
      too); the destination and the engine are untouched. */
  lemma TakenNameGoesToError(ask: Uniquifier, st: State, path: string, probe: Probe)
    requires path in st.source && probe.access == Free && FileName(path) in st.destination
    ensures var after := FileStep(ask, st, path, probe); var target := QuarantineName(FileName(path), probe.ticks);
      after.1.destination == st.destination && after.1.engine == st.engine &&
      (target !in st.error ==>
        after.0 == Quarantined(target) && path !in after.1.source && after.1.error == st.error[target := st.source[path]]) &&
      (target in st.error ==> after == (Stuck, st))
  {
  }

  /** A file outside the XML path is moved byte for byte, and the engine is
      not asked. */
  lemma NonXmlMovedVerbatim(ask: Uniquifier, st: State, path: string, probe: Probe)
    requires path in st.source && probe.access == Free && FileName(path) !in st.destination && !IsXml(FileName(path))
    ensures var after := FileStep(ask, st, path, probe);
      after.0 == Done(MovedUnchanged) && after.1 == MoveToDestination(st, path, FileName(path)) &&
      after.1.destination[FileName(path)] == st.source[path] && path !in after.1.source && after.1.engine == st.engine
  {
  }

  /** The conditions of the patch: both attributes present and non-empty, at
      most one `:` in the event date, and an engine that finds a free offset. */
  predicate WillPatch(ask: Uniquifier, st: State, path: string, probe: Probe) {
    path in st.source && probe.access == Free && FileName(path) !in st.destination && IsXml(FileName(path)) &&
    var patientCode := Attribute(st.source[path], "Patient", "PatientCode");
    var eventDate := Attribute(st.source[path], "Event", "EventDate");
    patientCode.Some? && eventDate.Some? && ColonCount(eventDate.value) <= 1 &&
    ask(st.engine, eventDate.value, patientCode.value, probe.now).0.Unique?
  }

  /** A file is patched exactly under those conditions. */
  lemma PatchedExactly(ask: Uniquifier, st: State, path: string, probe: Probe)
    ensures FileStep(ask, st, path, probe).0.Done? && FileStep(ask, st, path, probe).0.handled.Patched? <==> WillPatch(ask, st, path, probe)
  {
  }

  /** A patched file: the destination holds the loaded document with only
      `EventDate` replaced by the engine's answer, so that value reads back and
      every other (tag, attribute) lookup, `PatientCode` among them, is as it
      was; the source is deleted, and the engine has taken its step. */
  lemma PatchedContent(ask: Uniquifier, st: State, path: string, probe: Probe)
    requires WillPatch(ask, st, path, probe)
    ensures var name, content := FileName(path), st.source[path];
      var eventDate := Attribute(content, "Event", "EventDate").value;
      var patientCode := Attribute(content, "Patient", "PatientCode").value;
      var asked := ask(st.engine, eventDate, patientCode, probe.now);
      var after := FileStep(ask, st, path, probe);
      after.0 == Done(Patched(asked.0.eventDate)) && path !in after.1.source &&
      name in after.1.destination &&
      after.1.destination[name] == Saved(SetAttribute(Load(content).value, "Event", "EventDate", asked.0.eventDate)) &&
      (asked.0.eventDate != "" ==> Attribute(after.1.destination[name], "Event", "EventDate") == Some(asked.0.eventDate)) &&
      (forall tag, attribute :: tag != "Event" || attribute != "EventDate" ==>
        Attribute(after.1.destination[name], tag, attribute) == Attribute(content, tag, attribute)) &&
      after.1.engine == asked.1 && after.1.error == st.error
  {
    var content := st.source[path];
    var doc := Load(content).value;
    var eventDate := Attribute(content, "Event", "EventDate").value;
    var patientCode := Attribute(content, "Patient", "PatientCode").value;
    var asked := ask(st.engine, eventDate, patientCode, probe.now);
    var patched := SetAttribute(doc, "Event", "EventDate", asked.0.eventDate);
    if asked.0.eventDate != "" {
      SetAttributeReadBack(doc, "Event", "EventDate", asked.0.eventDate, "Event", "EventDate");
    }
    forall tag, attribute | tag != "Event" || attribute != "EventDate"
      ensures Attribute(Saved(patched), tag, attribute) == Attribute(content, tag, attribute)
    {
      SetAttributeKeepsOthers(doc, "Event", "EventDate", asked.0.eventDate, tag, attribute);
    }
  }

  /** With the real engines, a patched event date is the old one with a
      two-digit offset appended: one more `:` than before. */
  lemma PatchedAddsSeconds(st: State, path: string, probe: Probe)
    requires WillPatch(Ask, st, path, probe)
    ensures var content := st.source[path];
      var eventDate := Attribute(content, "Event", "EventDate").value;
      var patientCode := Attribute(content, "Patient", "PatientCode").value;
      var v := Ask(st.engine, eventDate, patientCode, probe.now).0.eventDate;
      && (exists i :: 0 <= i < Slots && v == Candidate(eventDate, i))
      && ColonCount(v) == ColonCount(eventDate) + 1
      && Attribute(FileStep(Ask, st, path, probe).1.destination[FileName(path)], "Event", "EventDate") == Some(v)
  {
    var content := st.source[path];
    var eventDate := Attribute(content, "Event", "EventDate").value;
    var patientCode := Attribute(content, "Patient", "PatientCode").value;
    AskGivesCandidate(st.engine, eventDate, patientCode, probe.now);
    var i :| 0 <= i < Slots && Ask(st.engine, eventDate, patientCode, probe.now).0.eventDate == Candidate(eventDate, i);
    CandidateColons(eventDate, i);
    PatchedContent(Ask, st, path, probe);
  }

  /** An XML file that is not patched goes to the destination unmodified;
      the engine is asked only when both attributes are there and the event
      date has at most one `:`. */
  lemma XmlMovedUnchanged(ask: Uniquifier, st: State, path: string, probe: Probe)
    requires path in st.source && probe.access == Free && FileName(path) !in st.destination && IsXml(FileName(path))
    requires !WillPatch(ask, st, path, probe)
    ensures var content := st.source[path];
      var eventDate := Attribute(content, "Event", "EventDate");
      var patientCode := Attribute(content, "Patient", "PatientCode");
      var after := FileStep(ask, st, path, probe);
      after.0 == Done(MovedUnchanged) && after.1.destination == st.destination[FileName(path) := content] &&
      after.1.source == st.source - {path} && after.1.error == st.error &&
      (patientCode.None? || eventDate.None? || ColonCount(eventDate.value) > 1 ==> after.1.engine == st.engine)
  {
  }

  /** A file patched from a minute-precision date (one `:`) now has seconds:
      if its output comes round again it is moved unchanged and the engine is
      not asked a second time. */
  lemma PatchedOnce(st: State, path: string, probe: Probe, st2: State, path2: string, probe2: Probe)
    requires WillPatch(Ask, st, path, probe)
    requires ColonCount(Attribute(st.source[path], "Event", "EventDate").value) == 1
    requires path2 in st2.source && st2.source[path2] == FileStep(Ask, st, path, probe).1.destination[FileName(path)]
    ensures !WillPatch(Ask, st2, path2, probe2)
    ensures FileStep(Ask, st2, path2, probe2).1.engine == st2.engine
  {
    PatchedAddsSeconds(st, path, probe);
    var eventDate := Attribute(st2.source[path2], "Event", "EventDate");
    assert eventDate.Some? && ColonCount(eventDate.value) == 2;
    var name2 := FileName(path2);
    if path2 in st2.source && probe2.access == Refused {
      RefusedGoesToError(Ask, st2, path2, probe2);
    } else if probe2.access == Free {
      if name2 in st2.destination {
        TakenNameGoesToError(Ask, st2, path2, probe2);
      } else if !IsXml(name2) {
        NonXmlMovedVerbatim(Ask, st2, path2, probe2);
      } else {
        XmlMovedUnchanged(Ask, st2, path2, probe2);
      }
    }
  }

  lemma {:induction false} PassAppend(ask: Uniquifier, st: State, a: seq<string>, pa: seq<Probe>, b: seq<string>, pb: seq<Probe>)
    requires |pa| == |a| && |pb| == |b|
    ensures var mid := Pass(ask, st, a, pa); var end := Pass(ask, mid.1, b, pb);
      Pass(ask, st, a + b, pa + pb) == (mid.0 + end.0, end.1)
    decreases |a|
  {
    if a == [] {
      assert pa == [];
      assert a + b == b && pa + pb == pb;
      var end := Pass(ask, st, b, pb);
      assert Pass(ask, st, a, pa) == ([], st);
      assert [] + end.0 == end.0;
    } else {
      var first := FileStep(ask, st, a[0], pa[0]);
      var mid := Pass(ask, first.1, a[1..], pa[1..]);
      var end := Pass(ask, mid.1, b, pb);
      PassAppend(ask, first.1, a[1..], pa[1..], b, pb);
      assert (a + b)[1..] == a[1..] + b && (pa + pb)[1..] == pa[1..] + pb;
      assert (a + b)[0] == a[0] && (pa + pb)[0] == pa[0];
      assert Pass(ask, st, a + b, pa + pb) == ([first.0] + (mid.0 + end.0), end.1);
      assert Pass(ask, st, a, pa) == ([first.0] + mid.0, mid.1);
      assert [first.0] + (mid.0 + end.0) == ([first.0] + mid.0) + end.0;
    }
  }

  lemma PassSingle(ask: Uniquifier, st: State, path: string, probe: Probe)
    ensures Pass(ask, st, [path], [probe]) == ([FileStep(ask, st, path, probe).0], FileStep(ask, st, path, probe).1)
  {
    var last := FileStep(ask, st, path, probe);
    var rest := Pass(ask, last.1, [path][1..], [probe][1..]);
    assert Pass(ask, st, [path], [probe]) == ([last.0] + rest.0, rest.1);
    assert [path][1..] == [];
    assert rest == ([], last.1);
    assert [last.0] + rest.0 == [last.0];
  }

  /** A failure on one file does not stop the pass: the file after any
      prefix of the listing is processed from the state the prefix left. */
  lemma PassSnoc(ask: Uniquifier, st: State, listing: seq<string>, probes: seq<Probe>, path: string, probe: Probe)
    requires |probes| == |listing|
    ensures var before := Pass(ask, st, listing, probes); var last := FileStep(ask, before.1, path, probe);
      Pass(ask, st, listing + [path], probes + [probe]) == (before.0 + [last.0], last.1)
  {
    PassAppend(ask, st, listing, probes, [path], [probe]);
    PassSingle(ask, Pass(ask, st, listing, probes).1, path, probe);
  }

  /** A whole pass loses no file, gives one result per listed path, and never
      overwrites or removes anything in the destination or error directory. */
  lemma {:induction false} PassKeepsFiles(ask: Uniquifier, st: State, listing: seq<string>, probes: seq<Probe>)
    requires |probes| == |listing|
    ensures var after := Pass(ask, st, listing, probes);
      |after.0| == |listing| && Total(after.1) == Total(st) &&
      (forall n :: n in st.destination ==> n in after.1.destination && after.1.destination[n] == st.destination[n]) &&
      (forall n :: n in st.error ==> n in after.1.error && after.1.error[n] == st.error[n])
    decreases |listing|
  {
    if listing != [] {
      var first := FileStep(ask, st, listing[0], probes[0]);
      FileStepConserves(ask, st, listing[0], probes[0]);
      FileStepKeepsOthers(ask, st, listing[0], probes[0]);
      PassKeepsFiles(ask, first.1, listing[1..], probes[1..]);
    }
  }

  // ---------------------------------------------------------------------
  // The mover object

  /** The `IUniqueifier` the mover was built with. */
  datatype Engine = InMemory(memory: MemoryEngine.MemoryUniqueifier) | Durable(durable: DbEngine.DbUniqueifier)

  class FileMover {
    const settings: Settings
    const updateInterval: int
    const engine: Engine
    var source: map<string, Content>
    var destination: map<string, Content>
    var error: map<string, Content>

    ghost function EngineObjects(): set<object>
      reads this
    {
      match engine
      case InMemory(m) => {m}
      case Durable(d) => {d}
    }

    /** The normalised directories end in `\`, and the engine keeps its own
        invariant. */
    ghost predicate Valid()
      reads this, EngineObjects()
    {
      EndsWith(settings.destination, "\\") && EndsWith(settings.error, "\\") &&
      match engine
      case InMemory(m) => m.Valid()
      case Durable(d) => d.Valid()
    }

    ghost function EngineModel(): EngineState
      reads this, EngineObjects()
    {
      match engine
      case InMemory(m) => MemoryState(m.history, m.entryQueue)
      case Durable(d) => DurableState(d.history, d.events)
    }

    ghost function Model(): State
      reads this, EngineObjects()
    {
      State(source, destination, error, EngineModel())
    }

    /** Only reachable once the directory checks pass; `Open` is the
        throwing form. */
    constructor (source: string, destination: string, error: string, updateInterval: int, engine: Engine,
                 existing: set<string>, sourceFiles: map<string, Content>, destinationFiles: map<string, Content>, errorFiles: map<string, Content>)
      requires ValidateDirectories(source, destination, error, existing).Ok?
      requires match engine case InMemory(m) => m.Valid() case Durable(d) => d.Valid()
      ensures Valid()
      ensures settings == ValidateDirectories(source, destination, error, existing).value
      ensures this.updateInterval == updateInterval && this.engine == engine
      ensures this.source == sourceFiles && this.destination == destinationFiles && this.error == errorFiles
    {
      settings := ValidateDirectories(source, destination, error, existing).value;
      this.updateInterval := updateInterval;
      this.engine := engine;
      this.source := sourceFiles;
      this.destination := destinationFiles;
      this.error := errorFiles;
    }

    /** `GetEventDateValue`: one `Uniquify` call on whichever engine the
        mover holds; the directories are untouched. */
    method GetEventDateValue(eventDate: string, patientCode: string, now: nat) returns (r: Outcome)
      requires Valid()
      modifies EngineObjects()
      ensures Valid()
      ensures (r, EngineModel()) == old(Ask(EngineModel(), eventDate, patientCode, now))
      ensures source == old(source) && destination == old(destination) && error == old(error)
    {
      match engine
      case InMemory(m) =>
        r := m.Uniquify(eventDate, patientCode);
      case Durable(d) =>
        r := d.Uniquify(eventDate, patientCode, now);
    }

    /** `ProcessFile`, proved to do what `ProcessFileSpec` says. */
    method ProcessFile(path: string, access: Access, now: nat) returns (r: Result<Handled, Thrown>)
      requires Valid()
      modifies this, EngineObjects()
      ensures Valid()
      ensures (r, Model()) == old(ProcessFileSpec(Ask, Model(), path, access, now))
    {
      if path !in source || access == Locked {
        return Ok(Skipped);
      }
      if access == Refused {
        return Err(AccessRefused);
      }
      var name := FileName(path);
      if name in destination {
        return Err(AlreadyInDestination);
      }
      if !IsXml(name) {
        destination := destination[name := source[path]];
        source := source - {path};
        return Ok(MovedUnchanged);
      }
      var handled := ProcessXmlFile(path, name, now);
      return Ok(handled);
    }

    /** The XML branch of `ProcessFile`: load, read both attributes, refuse
        a date that already has seconds, ask the engine, save and delete; any
        of these failing moves the file unmodified instead. */
    method ProcessXmlFile(path: string, name: string, now: nat) returns (h: Handled)
      requires Valid() && path in source
      modifies this, EngineObjects()
      ensures Valid()
      ensures (h, Model()) == old(ProcessXml(Ask, Model(), path, name, now))
    {
      ghost var st0 := Model();
      var content := source[path];
      var patientCode := Attribute(content, "Patient", "PatientCode");
      var eventDate := Attribute(content, "Event", "EventDate");
      if patientCode.Some? && eventDate.Some? && ColonCount(eventDate.value) <= 1 {
        ghost var asked := Ask(st0.engine, eventDate.value, patientCode.value, now);
        var value := GetEventDateValue(eventDate.value, patientCode.value, now);
        assert value == asked.0 && EngineModel() == asked.1;
        assert source == st0.source && destination == st0.destination && error == st0.error;
        if value.Unique? {
          var patched := SetAttribute(Load(content).value, "Event", "EventDate", value.eventDate);
          destination := destination[name := Saved(patched)];
          source := source - {path};
          return Patched(value.eventDate);
        }
      }
      destination := destination[name := content];
      source := source - {path};
      return MovedUnchanged;
    }

    /** The `catch` in `ProcessFiles`. */
    method Quarantine(path: string, ticks: nat) returns (r: FileResult)
      modifies this
      ensures (r, Model()) == old(MoveToError(Model(), path, ticks))
    {
      var target := QuarantineName(FileName(path), ticks);
      if path !in source || target in error {
        return Stuck;
      }
      error := error[target := source[path]];
      source := source - {path};
      return Quarantined(target);
    }

    /** `ProcessFiles` over one listing of the source tree: every listed path
        is tried in turn, whatever happened to the ones before it. */
    method ProcessFiles(listing: seq<string>, probes: seq<Probe>) returns (results: seq<FileResult>)
      requires Valid() && |probes| == |listing|
      modifies this, EngineObjects()
      ensures Valid()
      ensures (results, Model()) == old(Pass(Ask, Model(), listing, probes))
    {
      ghost var st0 := Model();
      results := [];
      var i := 0;
      while i < |listing|
        invariant 0 <= i <= |listing|
        invariant Valid()
        invariant (results, Model()) == Pass(Ask, st0, listing[..i], probes[..i])
      {
        PassSnoc(Ask, st0, listing[..i], probes[..i], listing[i], probes[i]);
        var handled := ProcessFile(listing[i], probes[i].access, probes[i].now);
        var result;
        if handled.Ok? {
          result := Done(handled.value);
        } else {
          result := Quarantine(listing[i], probes[i].ticks);
        }
        results := results + [result];
        assert listing[..i + 1] == listing[..i] + [listing[i]];
        assert probes[..i + 1] == probes[..i] + [probes[i]];
        i := i + 1;
      }
      assert listing[..i] == listing && probes[..i] == probes;
    }
  }

  /** The constructor with its `ArgumentException`s: the first directory that
      does not exist is reported, and nothing is built. */
  method Open(source: string, destination: string, error: string, updateInterval: int, engine: Engine,
              existing: set<string>, sourceFiles: map<string, Content>, destinationFiles: map<string, Content>, errorFiles: map<string, Content>)
    returns (r: Result<FileMover, ConfigError>)
    requires match engine case InMemory(m) => m.Valid() case Durable(d) => d.Valid()
    ensures r.Ok? <==> ValidateDirectories(source, destination, error, existing).Ok?
    ensures r.Err? ==> r == Err(ValidateDirectories(source, destination, error, existing).error)
    ensures r.Ok? ==>
      fresh(r.value) && r.value.Valid() && r.value.engine == engine &&
      r.value.settings == ValidateDirectories(source, destination, error, existing).value &&
      r.value.source == sourceFiles && r.value.destination == destinationFiles && r.value.error == errorFiles
  {
    var checked := ValidateDirectories(source, destination, error, existing);
    if checked.Err? {
      return Err(checked.error);
    }
    var mover := new FileMover(source, destination, error, updateInterval, engine, existing, sourceFiles, destinationFiles, errorFiles);
    return Ok(mover);
  }
}
