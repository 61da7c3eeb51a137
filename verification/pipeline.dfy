/** `main` in generate-events.js: the shape check on the fetched payload, the
    cap of `MAX_EVENTS` features, and the loop that writes one page per
    feature into the output directory. The directory is a map from file name
    to content; the first thrown error ends the loop and is reported. */
module Pipeline {
  import opened Wrappers
  import opened Feed
  import Slug
  import Page

  /** `MAX_EVENTS`: at most this many features are rendered per run. */
  const MaxEvents: nat := 10

  function Min(a: nat, b: nat): nat {
    if a < b then a else b
  }

  /** `data.events.features.slice(0, MAX_EVENTS)`, after the check that
      `data.events` and `data.events.features` are present. */
  function SelectBatch(p: Payload): (r: Result<seq<Feature>, Fault>)
    ensures r.Err? <==> p.events.None? || p.events.value.features.None?
    ensures r.Err? ==> r.error == InvalidStructure
    ensures r.Ok? ==> var all := p.events.value.features.value;
      && |r.value| <= MaxEvents
      && r.value <= all
      && (|all| <= MaxEvents ==> r.value == all)
      && (|all| > MaxEvents ==> |r.value| == MaxEvents)
      && r.value == all[..Min(|all|, MaxEvents)]
  {
    match p.events
    case None => Err(InvalidStructure)
    case Some(events) =>
      match events.features
      case None => Err(InvalidStructure)
      case Some(all) => Ok(all[..Min(|all|, MaxEvents)])
  }

  /** The name of the page written for `slug`, relative to `OUTPUT_DIR`. */
  function FileName(slug: string): string {
    slug + ".html"
  }

  /** Different slugs never share a file, and a slug's file stays inside the
      output directory: its name holds no `/` and is neither `.` nor `..`. */
  lemma FileNames(a: string, b: string)
    ensures FileName(a) == FileName(b) ==> a == b
    ensures Slug.IsSlug(a) ==> '/' !in FileName(a) && FileName(a) != "." && FileName(a) != ".."
  {
    if FileName(a) == FileName(b) {
      assert a == FileName(a)[..|a|];
      assert b == FileName(b)[..|b|];
    }
    if Slug.IsSlug(a) {
      assert FileName(a)[|a|..] == ".html";
      assert |FileName(a)| >= 5;
      assert forall i | 0 <= i < |a| :: FileName(a)[i] == a[i];
    }
  }

  // ---------------------------------------------------------------------------
  // One iteration of the loop.

  /** A feature the loop body can handle without throwing. */
  predicate Writable(f: Feature) {
    f.properties.Some? && f.properties.value.eventName.Some? && f.geometry.Some?
  }

  /** The file a writable feature goes to. */
  function Target(f: Feature): string
    requires Writable(f)
  {
    FileName(Slug.Slugify(f.properties.value.eventName.value))
  }

  /** The page a writable feature renders. */
  function Html(t: Page.Template, f: Feature): string
    requires Writable(f)
  {
    Page.RenderPage(t, Page.Extract(f).value)
  }

  /** The error the loop body throws for a feature that is not writable, in
      the order the body meets them: `properties` is read first, `eventname`
      is lower-cased next, `geometry` is read last. */
  function FaultOf(f: Feature): Fault
    requires !Writable(f)
  {
    if f.properties.None? then MissingProperties
    else if f.properties.value.eventName.None? then MissingEventName
    else MissingGeometry
  }

  /** The body of the loop up to the write: slugify the name and render the
      page. The result is the file name and its content. */
  function WriteOf(t: Page.Template, f: Feature): (r: Result<(string, string), Fault>)
    ensures r.Ok? <==> Writable(f)
    ensures r.Ok? ==> r.value == (Target(f), Html(t, f))
    ensures r.Err? ==> r.error == FaultOf(f)
  {
    var props :- if f.properties.None? then Err(MissingProperties) else Ok(f.properties.value);
    var name :- if props.eventName.None? then Err(MissingEventName) else Ok(props.eventName.value);
    var filename := FileName(Slug.Slugify(name));
    var html :- Page.GenerateHtml(t, f);
    Ok((filename, html))
  }

  // ---------------------------------------------------------------------------
  // The loop.

  /** The directory after the loop, and the error that ended it early, if any. */
  datatype Written = Written(files: map<string, string>, fault: Option<Fault>)

  /** `for (const event of events) { ... }`: writes in order and stops at the
      first error, keeping what was written before it. */
  function WriteAll(t: Page.Template, dir: map<string, string>, batch: seq<Feature>): Written
    decreases |batch|
  {
    if batch == [] then Written(dir, None)
    else
      match WriteOf(t, batch[0])
      case Err(e) => Written(dir, Some(e))
      case Ok(w) => WriteAll(t, dir[w.0 := w.1], batch[1..])
  }

  /** The index of the first feature the loop body throws on, or `|batch|`. */
  function FirstFault(batch: seq<Feature>): (k: nat)
    ensures k <= |batch|
    ensures forall i | 0 <= i < k :: Writable(batch[i])
    ensures k < |batch| ==> !Writable(batch[k])
  {
    if batch == [] then 0
    else if !Writable(batch[0]) then 0
    else 1 + FirstFault(batch[1..])
  }

  predicate AllWritable(es: seq<Feature>) {
    forall i | 0 <= i < |es| :: Writable(es[i])
  }

  /** The features the loop gets through before the first faulty one. */
  function Completed(batch: seq<Feature>): (done: seq<Feature>)
    ensures AllWritable(done)
    ensures done <= batch && |done| == FirstFault(batch)
  {
    var k := FirstFault(batch);
    assert forall i | 0 <= i < k :: batch[..k][i] == batch[i];
    batch[..k]
  }

  /** The writes of writable features: file name and content, in order. */
  function Writes(t: Page.Template, es: seq<Feature>): (ws: seq<(string, string)>)
    requires AllWritable(es)
    ensures |ws| == |es|
    ensures forall i | 0 <= i < |es| :: ws[i] == (Target(es[i]), Html(t, es[i]))
  {
    if es == [] then []
    else
      assert forall i | 0 <= i < |es[1..]| :: es[1..][i] == es[i + 1];
      [(Target(es[0]), Html(t, es[0]))] + Writes(t, es[1..])
  }

  // ---------------------------------------------------------------------------
  // Writes into a directory.

  /** Reference definition of the writes: the directory after the writes of
      `ws` one after another, defined from the last write back. */
  function Apply(dir: map<string, string>, ws: seq<(string, string)>): map<string, string>
    decreases |ws|
  {
    if ws == [] then dir
    else
      var last := ws[|ws| - 1];
      Apply(dir, ws[..|ws| - 1])[last.0 := last.1]
  }

  /** One write and then `ws` is the writes of `[w] + ws`. */
  lemma {:induction false} ApplyCons(dir: map<string, string>, w: (string, string), ws: seq<(string, string)>)
    ensures Apply(dir[w.0 := w.1], ws) == Apply(dir, [w] + ws)
    decreases |ws|
  {
    if ws != [] {
      var init := ws[..|ws| - 1];
      ApplyCons(dir, w, init);
      assert ([w] + ws)[..|ws|] == [w] + init;
    }
  }

  /** The index of the last write of `ws` to `key`, if any. */
  function LastWriter(ws: seq<(string, string)>, key: string): (j: Option<nat>)
    ensures j.Some? ==> j.value < |ws| && ws[j.value].0 == key
    ensures j.Some? ==> forall i | j.value < i < |ws| :: ws[i].0 != key
    ensures j.None? ==> forall i | 0 <= i < |ws| :: ws[i].0 != key
    decreases |ws|
  {
    if ws == [] then None
    else if ws[|ws| - 1].0 == key then Some(|ws| - 1)
    else LastWriter(ws[..|ws| - 1], key)
  }

  /** When several writes share a file, the last one's content is what stays;
      files nothing writes keep their earlier content. */
  lemma {:induction false} LastWins(dir: map<string, string>, ws: seq<(string, string)>, key: string)
    ensures var out := Apply(dir, ws);
      match LastWriter(ws, key)
      case Some(j) => key in out && out[key] == ws[j].1
      case None => Lookup(out, key) == Lookup(dir, key)
    decreases |ws|
  {
    if ws != [] {
      LastWins(dir, ws[..|ws| - 1], key);
    }
  }

  /** Among features that share a file, the page of the last one is what the
      file holds after the writes. */
  lemma LastFeatureWins(t: Page.Template, dir: map<string, string>, es: seq<Feature>, j: nat)
    requires AllWritable(es) && j < |es|
    requires forall i | j < i < |es| :: Target(es[i]) != Target(es[j])
    ensures Target(es[j]) in Apply(dir, Writes(t, es))
    ensures Apply(dir, Writes(t, es))[Target(es[j])] == Html(t, es[j])
  {
    var ws := Writes(t, es);
    var key := Target(es[j]);
    LastWins(dir, ws, key);
    assert ws[j].0 == key;
    var last := LastWriter(ws, key);
    assert last.Some?;
    var k := last.value;
    assert ws[k].0 == Target(es[k]);
    assert k == j;
  }

  /** The files `ws` writes. */
  function Names(ws: seq<(string, string)>): (names: set<string>)
    ensures |names| <= |ws|
    ensures forall i | 0 <= i < |ws| :: ws[i].0 in names
    ensures forall name | name in names :: exists i | 0 <= i < |ws| :: ws[i].0 == name
    decreases |ws|
  {
    if ws == [] then {}
    else
      var init := ws[..|ws| - 1];
      assert forall i | 0 <= i < |init| :: init[i] == ws[i];
      Names(init) + {ws[|ws| - 1].0}
  }

  /** The directory afterwards holds exactly the files it held before and the
      files written. */
  lemma {:induction false} ApplyDomain(dir: map<string, string>, ws: seq<(string, string)>)
    ensures Apply(dir, ws).Keys == dir.Keys + Names(ws)
    decreases |ws|
  {
    if ws != [] {
      ApplyDomain(dir, ws[..|ws| - 1]);
    }
  }

  // ---------------------------------------------------------------------------
  // The loop against the reference.

  lemma WriteAllStep(t: Page.Template, dir: map<string, string>, batch: seq<Feature>)
    requires batch != []
    ensures Writable(batch[0]) ==>
      WriteAll(t, dir, batch) == WriteAll(t, dir[Target(batch[0]) := Html(t, batch[0])], batch[1..])
    ensures !Writable(batch[0]) ==> WriteAll(t, dir, batch) == Written(dir, Some(FaultOf(batch[0])))
  {
  }

  lemma WritesCons(t: Page.Template, es: seq<Feature>)
    requires es != [] && AllWritable(es)
    ensures AllWritable(es[1..])
    ensures Writes(t, es) == [(Target(es[0]), Html(t, es[0]))] + Writes(t, es[1..])
  {
    assert forall i | 0 <= i < |es[1..]| :: es[1..][i] == es[i + 1];
  }

  /** The loop performs the writes of the features before the first faulty
      one, in order, and reports that feature's error; with no faulty feature
      it performs them all and reports none. */
  lemma {:induction false} WriteAllStops(t: Page.Template, dir: map<string, string>, batch: seq<Feature>)
    ensures WriteAll(t, dir, batch).files == Apply(dir, Writes(t, Completed(batch)))
    ensures var k := FirstFault(batch);
      WriteAll(t, dir, batch).fault == (if k < |batch| then Some(FaultOf(batch[k])) else None)
    decreases |batch|, 1
  {
    if batch != [] {
      WriteAllStep(t, dir, batch);
      if Writable(batch[0]) {
        WriteAllStopsAfterWrite(t, dir, batch);
      }
    }
  }

  /** The inductive step of `WriteAllStops`: the first feature is writable. */
  lemma {:induction false} WriteAllStopsAfterWrite(t: Page.Template, dir: map<string, string>, batch: seq<Feature>)
    requires batch != [] && Writable(batch[0])
    ensures WriteAll(t, dir, batch).files == Apply(dir, Writes(t, Completed(batch)))
    ensures var k := FirstFault(batch);
      WriteAll(t, dir, batch).fault == (if k < |batch| then Some(FaultOf(batch[k])) else None)
    decreases |batch|, 0
  {
    var k := FirstFault(batch);
    var done := Completed(batch);
    var f := batch[0];
    var rest := batch[1..];
    var w := (Target(f), Html(t, f));
    WriteAllStep(t, dir, batch);
    WriteAllStops(t, dir[w.0 := w.1], rest);
    assert FirstFault(rest) == k - 1;
    assert done[1..] == Completed(rest);
    WritesCons(t, done);
    ApplyCons(dir, w, Writes(t, Completed(rest)));
    if k < |batch| {
      assert rest[k - 1] == batch[k];
    }
  }

  // ---------------------------------------------------------------------------
  // One run.

  /** What `main` logs at the end: the success line with the batch size, or
      the error its `catch` caught. */
  datatype Report = Generated(count: nat) | Failed(fault: Fault)

  datatype RunResult = RunResult(files: map<string, string>, report: Report)

  /** `main`. `fetched` is the parsed payload, or `None` when the request or
      `JSON.parse` failed; `dir` is the output directory before the run. */
  function Run(t: Page.Template, fetched: Option<Payload>, dir: map<string, string>): (r: RunResult)
    ensures fetched.None? ==> r == RunResult(dir, Failed(FetchFailed))
    ensures r.report.Generated? ==> r.report.count <= MaxEvents
  {
    match fetched
    case None => RunResult(dir, Failed(FetchFailed))
    case Some(p) =>
      match SelectBatch(p)
      case Err(e) => RunResult(dir, Failed(e))
      case Ok(batch) =>
        var w := WriteAll(t, dir, batch);
        match w.fault
        case Some(e) => RunResult(w.files, Failed(e))
        case None => RunResult(w.files, Generated(|batch|))
  }

  /** A payload without `events.features` fails before any page is written. */
  lemma BadShapeWritesNothing(t: Page.Template, p: Payload, dir: map<string, string>)
    requires p.events.None? || p.events.value.features.None?
    ensures Run(t, Some(p), dir) == RunResult(dir, Failed(InvalidStructure))
  {
  }

  /** A run over a well-shaped payload writes the pages of the batch up to
      its first faulty feature over the existing directory, and nothing else
      (`ApplyDomain` gives the resulting file names). */
  lemma RunFiles(t: Page.Template, p: Payload, dir: map<string, string>)
    requires p.events.Some? && p.events.value.features.Some?
    ensures Run(t, Some(p), dir).files == Apply(dir, Writes(t, Completed(SelectBatch(p).value)))
  {
    WriteAllStops(t, dir, SelectBatch(p).value);
  }

  /** A run over a well-shaped payload reports success exactly when no feature
      of the batch is faulty; the count is then the batch size, which is at
      least the number of distinct files written. Otherwise it reports the
      first faulty feature's error. */
  lemma RunReport(t: Page.Template, p: Payload, dir: map<string, string>)
    requires p.events.Some? && p.events.value.features.Some?
    ensures var batch := SelectBatch(p).value;
      var k := FirstFault(batch);
      var report := Run(t, Some(p), dir).report;
      && (k == |batch| <==> report.Generated?)
      && (k < |batch| ==> report == Failed(FaultOf(batch[k])))
      && (report.Generated? ==> AllWritable(batch) && report.count == |batch| >= |Names(Writes(t, batch))|)
  {
    var batch := SelectBatch(p).value;
    WriteAllStops(t, dir, batch);
    if FirstFault(batch) == |batch| {
      assert Completed(batch) == batch;
    }
  }
}
