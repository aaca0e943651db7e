/**
  One cross-section run (calculate_MG_xsection.py): the command-line
  checks, the MadGraph deck written for a resolved point, the reading of
  the banner MadGraph leaves behind, and the final comparison of the
  analytic point with the one MadGraph reports. MadGraph itself is not
  modelled: its banner is an input, a sequence of lines.
 */
module MadgraphRun {
  import opened Results
  import opened RealMath
  import opened Strings
  import opened Parameters

  // ---------------------------------------------------------------------------
  // Process blocks

  /** The four process blocks a deck can contain. */
  datatype ProcessBlock = TopPairExclusive | OnShellMediator | OffShellMediator | Monotop

  /**
    The block for a signal name, by substring in a fixed priority; a name
    that matches none of them gets no block at all.
   */
  function SelectProcess(signal: string): (b: Option<ProcessBlock>)
    ensures b == Some(TopPairExclusive) <==> Contains(signal, "tt_excl")
    ensures b == Some(OnShellMediator) <==> !Contains(signal, "tt_excl") && Contains(signal, "onshell")
    ensures b == Some(OffShellMediator) <==>
      !Contains(signal, "tt_excl") && !Contains(signal, "onshell") && Contains(signal, "offshell")
    ensures b == Some(Monotop) <==>
      && !Contains(signal, "tt_excl") && !Contains(signal, "onshell") && !Contains(signal, "offshell")
      && (Contains(signal, "Monotop") || Contains(signal, "monotop"))
  {
    if Contains(signal, "tt_excl") then Some(TopPairExclusive)
    else if Contains(signal, "onshell") then Some(OnShellMediator)
    else if Contains(signal, "offshell") then Some(OffShellMediator)
    else if Contains(signal, "Monotop") || Contains(signal, "monotop") then Some(Monotop)
    else None
  }

  // ---------------------------------------------------------------------------
  // The deck

  /** A run's file stem: workspace directory, signal and the point's name. */
  datatype RunName = RunName(directory: string, signal: string, point: seq<NameToken>)

  /** The model parameters a deck sets, by their MadGraph names. */
  datatype ModelParameter =
    | Mpsi   // dark-matter mass
    | Ar     // the top-up coupling a_r
    | Gg     // the dark coupling g
    | MV     // mediator mass
    | WV     // mediator width

  /** One line of the deck, with printf rendering left abstract. */
  datatype DeckLine =
    | Preamble                           // banner comment, model import, particle definitions
    | BlockComment(block: ProcessBlock)
    | Generate(block: ProcessBlock)
    | AddProcess(block: ProcessBlock)    // the charge-conjugate process
    | Blank
    | OutputComment
    | Output(name: RunName)
    | Launch(name: RunName)
    | SetParameter(parameter: ModelParameter, value: Option<real>)
    | SetWidthAuto
    | LaunchInteractive(name: RunName)
    | PrintResults(name: RunName)

  function BlockLines(b: Option<ProcessBlock>): seq<DeckLine> {
    match b
    case None => []
    case Some(block) => [BlockComment(block), Generate(block), AddProcess(block), Blank]
  }

  /** The width line: MadGraph computes the width itself, or is told the resolved one. */
  function WidthLine(p: ParameterSpace, autoWidth: bool): DeckLine {
    if autoWidth then SetWidthAuto else SetParameter(WV, p.gTot)
  }


  /**
    The `set` lines among `lines` give the point's dark-matter mass, a_r, g
    and mediator mass, and no other value for any of them; the width is set
    to Auto exactly when autoWidth holds, and otherwise to the point's width
    and nothing else.
   */
  ghost predicate SetsPoint(lines: seq<DeckLine>, p: ParameterSpace, autoWidth: bool) {
    && SetParameter(Mpsi, Some(p.mDM)) in lines
    && SetParameter(Ar, Some(p.aR)) in lines
    && SetParameter(Gg, p.g) in lines
    && SetParameter(MV, Some(p.mV)) in lines
    && (forall v :: SetParameter(Mpsi, v) in lines ==> v == Some(p.mDM))
    && (forall v :: SetParameter(Ar, v) in lines ==> v == Some(p.aR))
    && (forall v :: SetParameter(Gg, v) in lines ==> v == p.g)
    && (forall v :: SetParameter(MV, v) in lines ==> v == Some(p.mV))
    && (SetWidthAuto in lines <==> autoWidth)
    && (forall v :: SetParameter(WV, v) in lines <==> !autoWidth && v == p.gTot)
  }

  /** The five `set` lines: dark-matter mass, the two couplings, mediator mass and width. */
  function Settings(p: ParameterSpace, autoWidth: bool): (lines: seq<DeckLine>)
    ensures |lines| == 5
    ensures SetsPoint(lines, p, autoWidth)
    ensures forall l :: l in lines ==> Setting(l)
  {
    [ SetParameter(Mpsi, Some(p.mDM)), SetParameter(Ar, Some(p.aR)),
      SetParameter(Gg, p.g), SetParameter(MV, Some(p.mV)),
      WidthLine(p, autoWidth) ]
  }

  /** create_MG_config: the deck for a signal and a resolved point. */
  function Deck(workspace: string, signal: string, p: ParameterSpace, autoWidth: bool): (deck: seq<DeckLine>)
    ensures |deck| > 0 && deck[0] == Preamble
    ensures Output(RunName(workspace, signal, Name(p))) in deck
    ensures Launch(RunName(workspace, signal, Name(p))) in deck
  {
    var name := RunName(workspace, signal, Name(p));
    var head := [Preamble] + BlockLines(SelectProcess(signal));
    var launch := [OutputComment, Output(name), Blank, Launch(name)];
    var finish := [LaunchInteractive(name), PrintResults(name)];
    head + launch + Settings(p, autoWidth) + finish
  }

  /** A line that sets a model parameter. */
  predicate Setting(l: DeckLine) {
    l.SetParameter? || l == SetWidthAuto
  }

  lemma InConcat<T>(a: seq<T>, b: seq<T>, c: seq<T>, x: T)
    ensures x in a + b + c <==> x in a || x in b || x in c
  {
  }


  /**
    The deck generates the selected process block, and no other; with no
    block selected it generates nothing.
   */
  lemma DeckProcessLines(workspace: string, signal: string, p: ParameterSpace, autoWidth: bool, l: DeckLine)
    requires l.Generate? || l.AddProcess?
    ensures l in Deck(workspace, signal, p, autoWidth) <==>
      SelectProcess(signal).Some? && (l == Generate(SelectProcess(signal).value) || l == AddProcess(SelectProcess(signal).value))
  {
    var name := RunName(workspace, signal, Name(p));
    var head := [Preamble] + BlockLines(SelectProcess(signal));
    var launch := [OutputComment, Output(name), Blank, Launch(name)];
    var finish := [LaunchInteractive(name), PrintResults(name)];
    assert Deck(workspace, signal, p, autoWidth) == head + launch + Settings(p, autoWidth) + finish;
    InConcat(head, launch, Settings(p, autoWidth) + finish, l);
    assert l !in Settings(p, autoWidth);
    assert l in head <==> l in BlockLines(SelectProcess(signal));
  }

  /** The only settings in the deck are the five `set` lines. */
  lemma DeckSettingLines(workspace: string, signal: string, p: ParameterSpace, autoWidth: bool, l: DeckLine)
    requires Setting(l)
    ensures l in Deck(workspace, signal, p, autoWidth) <==> l in Settings(p, autoWidth)
  {
    var name := RunName(workspace, signal, Name(p));
    var head := [Preamble] + BlockLines(SelectProcess(signal));
    var launch := [OutputComment, Output(name), Blank, Launch(name)];
    var finish := [LaunchInteractive(name), PrintResults(name)];
    assert Deck(workspace, signal, p, autoWidth) == (head + launch) + Settings(p, autoWidth) + finish;
    InConcat(head + launch, Settings(p, autoWidth), finish, l);
    assert l !in head;
    assert l !in launch;
    assert l !in finish;
  }

  /**
    The deck sets the point's dark-matter mass, couplings and mediator mass,
    and either lets MadGraph compute the width or sets the point's width.
   */
  lemma DeckSettings(workspace: string, signal: string, p: ParameterSpace, autoWidth: bool)
    ensures SetsPoint(Deck(workspace, signal, p, autoWidth), p, autoWidth)
  {
    forall l | Setting(l)
      ensures l in Deck(workspace, signal, p, autoWidth) <==> l in Settings(p, autoWidth)
    {
      DeckSettingLines(workspace, signal, p, autoWidth, l);
    }
    assert Setting(SetParameter(Mpsi, Some(p.mDM)));
    assert Setting(SetParameter(Ar, Some(p.aR)));
    assert Setting(SetParameter(Gg, p.g));
    assert Setting(SetParameter(MV, Some(p.mV)));
    assert Setting(SetWidthAuto);
    assert Setting(SetParameter(WV, p.gTot));
  }

  // ---------------------------------------------------------------------------
  // Reading the banner

  /** The seven labelled lines of the banner, in the order the script looks for them. */
  datatype BannerKey =
    | VisibleCouplingKey | DarkCouplingKey | MediatorMassKey | DarkMatterMassKey
    | WidthKey | BranchingKey | CrossSectionKey

  const BannerKeys: seq<BannerKey> := [
    VisibleCouplingKey, DarkCouplingKey, MediatorMassKey, DarkMatterMassKey,
    WidthKey, BranchingKey, CrossSectionKey]

  /** The substring that marks a line as carrying the key's value. */
  function Marker(k: BannerKey): string {
    match k
    case VisibleCouplingKey => "# ar"
    case DarkCouplingKey => "# gg"
    case MediatorMassKey => "# mv"
    case DarkMatterMassKey => "# mpsi"
    case WidthKey => "DECAY  32"
    case BranchingKey => "1000023  -1000023"
    case CrossSectionKey => "Integrated weight (pb)"
  }

  /** Which whitespace-separated column holds the value. */
  datatype Column = At(index: nat) | Last

  function ValueColumn(k: BannerKey): Column {
    match k
    case WidthKey => At(2)
    case BranchingKey => At(0)
    case CrossSectionKey => Last
    case _ => At(1)
  }

  /** `columns[i]`, or `columns[-1]`; `None` is an IndexError. */
  function Pick(columns: seq<string>, c: Column): (r: Option<string>)
    ensures r.Some? <==> (if c.At? then c.index < |columns| else |columns| > 0)
    ensures r.Some? ==> r.value == (if c.At? then columns[c.index] else columns[|columns| - 1])
  {
    match c
    case At(i) => if i < |columns| then Some(columns[i]) else None
    case Last => if |columns| > 0 then Some(columns[|columns| - 1]) else None
  }

  /** Everything a run can end with besides success. */
  datatype RunError =
    | InsufficientInput
    | Conversion(text: string)            // float() of a string that is no number
    | Derivation(error: Parameters.Error)
    | MissingColumn(key: BannerKey)        // IndexError in the banner
    | MissingCrossSection                  // the cross-section variable never bound
    | Mismatch

  /** What the banner has told so far: a point built from scratch, and the cross-section. */
  datatype BannerState = BannerState(point: ParameterSpace, crossSection: Option<real>)

  const BannerStart: BannerState := BannerState(Initial, None)

  function KeyField(k: BannerKey): Field
    requires k != CrossSectionKey
  {
    match k
    case VisibleCouplingKey => VisibleCoupling
    case DarkCouplingKey => DarkCoupling
    case MediatorMassKey => MediatorMass
    case DarkMatterMassKey => DarkMatterMass
    case WidthKey => TotalWidth
    case BranchingKey => BranchingRatio
  }

  /** The value a key currently holds. */
  function Value(s: BannerState, k: BannerKey): Option<real> {
    if k == CrossSectionKey then s.crossSection else Get(s.point, KeyField(k))
  }

  /** Stores a value under a key and leaves every other key alone. */
  function Store(s: BannerState, k: BannerKey, v: real): (t: BannerState)
    ensures Value(t, k) == Some(v)
    ensures forall k' :: k' != k ==> Value(t, k') == Value(s, k')
  {
    if k == CrossSectionKey then s.(crossSection := Some(v))
    else
      var t := s.(point := Set(s.point, KeyField(k), v));
      assert forall k' :: k' != k && k' != CrossSectionKey ==> KeyField(k') != KeyField(k);
      t
  }

  /**
    The position of a key's value among a line's `n` columns, counted as the
    script indexes them: the total width sits in column 2, the branching
    ratio in column 0, the cross-section in the last column, and every
    parameter in column 1.
   */
  function ColumnIndex(k: BannerKey, n: nat): int {
    if k == WidthKey then 2
    else if k == BranchingKey then 0
    else if k == CrossSectionKey then n - 1
    else 1
  }

  /**
    The value a line gives a key: `float()` of the key's column of the split
    line, an IndexError when the line has no such column.
   */
  function Reading(parse: string -> Option<real>, line: string, k: BannerKey): (r: Result<real, RunError>)
    ensures var w := Words(line); var i := ColumnIndex(k, |w|);
      && (!(0 <= i < |w|) ==> r == Err(MissingColumn(k)))
      && (0 <= i < |w| ==> r == (if parse(w[i]).Some? then Ok(parse(w[i]).value) else Err(Conversion(w[i]))))
  {
    match Pick(Words(line), ValueColumn(k))
    case None => Err(MissingColumn(k))
    case Some(text) =>
      match parse(text)
      case None => Err(Conversion(text))
      case Some(v) => Ok(v)
  }

  /** One test of the line: a key whose marker it carries stores its reading, or fails with it. */
  function ReadKey(parse: string -> Option<real>, s: BannerState, line: string, k: BannerKey): (r: Result<BannerState, RunError>)
    ensures r.Err? <==> Contains(line, Marker(k)) && Reading(parse, line, k).Err?
    ensures r.Err? ==> Reading(parse, line, k) == Err(r.error)
    ensures r.Ok? && Contains(line, Marker(k)) ==> r.value == Store(s, k, Reading(parse, line, k).value)
    ensures r.Ok? && !Contains(line, Marker(k)) ==> r.value == s
  {
    if Contains(line, Marker(k)) then
      match Reading(parse, line, k)
      case Err(e) => Err(e)
      case Ok(v) => Ok(Store(s, k, v))
    else Ok(s)
  }

  /**
    keys[j] is the first key, in the order tested, whose marker the line
    carries and whose value cannot be read.
   */
  predicate FirstFailingKey(parse: string -> Option<real>, line: string, keys: seq<BannerKey>, j: int) {
    && 0 <= j < |keys|
    && Contains(line, Marker(keys[j])) && Reading(parse, line, keys[j]).Err?
    && forall j' :: 0 <= j' < j && Contains(line, Marker(keys[j'])) ==> Reading(parse, line, keys[j']).Ok?
  }

  /** Tests one line against the given keys in order; each that matches stores its value. */
  function ReadKeys(parse: string -> Option<real>, s: BannerState, line: string, keys: seq<BannerKey>): (r: Result<BannerState, RunError>)
    ensures r.Ok? ==> forall k :: k in keys && Contains(line, Marker(k)) ==>
      Reading(parse, line, k).Ok? && Value(r.value, k) == Some(Reading(parse, line, k).value)
    ensures r.Ok? ==> forall k :: !(k in keys && Contains(line, Marker(k))) ==> Value(r.value, k) == Value(s, k)
    ensures r.Err? ==> exists k :: k in keys && Contains(line, Marker(k)) && Reading(parse, line, k).Err?
    ensures r.Err? ==> r.error.MissingColumn? || r.error.Conversion?
    decreases |keys|
  {
    if keys == [] then Ok(s)
    else
      var last := keys[|keys| - 1];
      var init := keys[..|keys| - 1];
      assert keys == init + [last];
      match ReadKeys(parse, s, line, init)
      case Err(e) => Err(e)
      case Ok(t) => ReadKey(parse, t, line, last)
  }

  /** The error of a line is the one of its first failing key, in the order the keys are tested. */
  lemma {:induction false} FirstFailingKeyReported(parse: string -> Option<real>, s: BannerState, line: string, keys: seq<BannerKey>)
    requires ReadKeys(parse, s, line, keys).Err?
    ensures exists j :: FirstFailingKey(parse, line, keys, j) && Reading(parse, line, keys[j]) == Err(ReadKeys(parse, s, line, keys).error)
    decreases |keys|
  {
    var init := keys[..|keys| - 1];
    var e := ReadKeys(parse, s, line, keys).error;
    assert forall j :: 0 <= j < |init| ==> keys[j] == init[j];
    if ReadKeys(parse, s, line, init).Err? {
      FirstFailingKeyReported(parse, s, line, init);
      var j :| FirstFailingKey(parse, line, init, j) && Reading(parse, line, init[j]) == Err(ReadKeys(parse, s, line, init).error);
      assert ReadKeys(parse, s, line, init).error == e;
      assert FirstFailingKey(parse, line, keys, j);
    } else {
      LastKeyFails(parse, s, line, keys);
    }
  }

  /** After the other keys read cleanly, the error is the last key's. */
  lemma LastKeyFails(parse: string -> Option<real>, s: BannerState, line: string, keys: seq<BannerKey>)
    requires keys != [] && ReadKeys(parse, s, line, keys[..|keys| - 1]).Ok?
    requires ReadKeys(parse, s, line, keys).Err?
    ensures FirstFailingKey(parse, line, keys, |keys| - 1)
    ensures Reading(parse, line, keys[|keys| - 1]) == Err(ReadKeys(parse, s, line, keys).error)
  {
    var init := keys[..|keys| - 1];
    var j := |keys| - 1;
    var t := ReadKeys(parse, s, line, init).value;
    assert forall j' :: 0 <= j' < j ==> keys[j'] in init;
    assert ReadKeys(parse, s, line, keys) == ReadKey(parse, t, line, keys[j]);
  }

  /** Every key is one of the seven looked for. */
  lemma AllBannerKeys(k: BannerKey)
    ensures k in BannerKeys
  {
    match k
    case VisibleCouplingKey => assert BannerKeys[0] == k;
    case DarkCouplingKey => assert BannerKeys[1] == k;
    case MediatorMassKey => assert BannerKeys[2] == k;
    case DarkMatterMassKey => assert BannerKeys[3] == k;
    case WidthKey => assert BannerKeys[4] == k;
    case BranchingKey => assert BannerKeys[5] == k;
    case CrossSectionKey => assert BannerKeys[6] == k;
  }

  /**
    One banner line: all seven tests, independently of each other, so one
    line can set several keys. It fails exactly when some marker it carries
    lacks its column or a convertible value there.
   */
  function ReadLine(parse: string -> Option<real>, s: BannerState, line: string): (r: Result<BannerState, RunError>)
    ensures r.Ok? ==> forall k :: Contains(line, Marker(k)) ==>
      Reading(parse, line, k).Ok? && Value(r.value, k) == Some(Reading(parse, line, k).value)
    ensures r.Ok? ==> forall k :: !Contains(line, Marker(k)) ==> Value(r.value, k) == Value(s, k)
    ensures r.Err? <==> exists k :: Contains(line, Marker(k)) && Reading(parse, line, k).Err?
    ensures r.Err? ==> exists j :: FirstFailingKey(parse, line, BannerKeys, j) && Reading(parse, line, BannerKeys[j]) == Err(r.error)
    ensures r.Err? ==> r.error.MissingColumn? || r.error.Conversion?
  {
    forall k ensures k in BannerKeys {
      AllBannerKeys(k);
    }
    var r := ReadKeys(parse, s, line, BannerKeys);
    assert r.Err? ==> exists j :: FirstFailingKey(parse, line, BannerKeys, j) && Reading(parse, line, BannerKeys[j]) == Err(r.error) by {
      if r.Err? {
        FirstFailingKeyReported(parse, s, line, BannerKeys);
      }
    }
    r
  }

  /** The banner, line by line from the top; the first error stops the reading. */
  function ReadBanner(parse: string -> Option<real>, lines: seq<string>): (r: Result<BannerState, RunError>)
    ensures r.Err? ==> r.error.MissingColumn? || r.error.Conversion?
    decreases |lines|
  {
    if lines == [] then Ok(BannerStart)
    else
      var s :- ReadBanner(parse, lines[..|lines| - 1]);
      ReadLine(parse, s, lines[|lines| - 1])
  }

  /** The index of the last line carrying a key's marker. */
  function LastMatch(lines: seq<string>, k: BannerKey): (i: Option<nat>)
    ensures i.Some? ==> i.value < |lines| && Contains(lines[i.value], Marker(k))
    ensures i.Some? ==> forall j :: i.value < j < |lines| ==> !Contains(lines[j], Marker(k))
    ensures i.None? ==> forall j :: 0 <= j < |lines| ==> !Contains(lines[j], Marker(k))
    decreases |lines|
  {
    if lines == [] then None
    else if Contains(lines[|lines| - 1], Marker(k)) then Some(|lines| - 1)
    else
      var i := LastMatch(lines[..|lines| - 1], k);
      assert forall j :: 0 <= j < |lines| - 1 ==> lines[..|lines| - 1][j] == lines[j];
      i
  }

  /**
    Each key ends up holding the value of the last line that carries its
    marker, and keeps the value of a fresh point when no line does.
   */
  lemma {:induction false} LastMatchWins(parse: string -> Option<real>, lines: seq<string>, k: BannerKey)
    requires ReadBanner(parse, lines).Ok?
    ensures LastMatch(lines, k).None? ==> Value(ReadBanner(parse, lines).value, k) == Value(BannerStart, k)
    ensures LastMatch(lines, k).Some? ==>
      var reading := Reading(parse, lines[LastMatch(lines, k).value], k);
      reading.Ok? && Value(ReadBanner(parse, lines).value, k) == Some(reading.value)
    decreases |lines|
  {
    if lines != [] {
      var init := lines[..|lines| - 1];
      var last := lines[|lines| - 1];
      var s := ReadBanner(parse, init).value;
      assert ReadBanner(parse, lines) == ReadLine(parse, s, last);
      var t := ReadBanner(parse, lines).value;
      if Contains(last, Marker(k)) {
        assert LastMatch(lines, k) == Some(|lines| - 1);
        assert Value(t, k) == Some(Reading(parse, last, k).value);
      } else {
        LastMatchWins(parse, init, k);
        assert LastMatch(lines, k) == LastMatch(init, k);
        assert Value(t, k) == Value(s, k);
        if LastMatch(init, k).Some? {
          assert lines[LastMatch(init, k).value] == init[LastMatch(init, k).value];
        }
      }
    }
  }

  /**
    The banner reads without error when every line carrying a marker has the
    key's column and that column converts.
   */
  lemma {:induction false} WellFormedBannerReads(parse: string -> Option<real>, lines: seq<string>)
    requires forall i, k :: 0 <= i < |lines| && Contains(lines[i], Marker(k)) ==> Reading(parse, lines[i], k).Ok?
    ensures ReadBanner(parse, lines).Ok?
    decreases |lines|
  {
    if lines != [] {
      var init := lines[..|lines| - 1];
      assert forall i :: 0 <= i < |init| ==> init[i] == lines[i];
      WellFormedBannerReads(parse, init);
      ReadKeysSucceeds(parse, ReadBanner(parse, init).value, lines[|lines| - 1], BannerKeys);
    }
  }

  /**
    Conversely, one marked line whose value cannot be read stops the whole
    banner, even when a later line with the same marker is readable.
   */
  lemma {:induction false} BadLineStops(parse: string -> Option<real>, lines: seq<string>, i: nat, k: BannerKey)
    requires i < |lines|
    requires Contains(lines[i], Marker(k)) && Reading(parse, lines[i], k).Err?
    ensures ReadBanner(parse, lines).Err?
    decreases |lines|
  {
    var init := lines[..|lines| - 1];
    if i < |lines| - 1 {
      assert init[i] == lines[i];
      BadLineStops(parse, init, i, k);
    }
  }

  /** One more line after an error changes nothing: reading has stopped. */
  lemma ErrorPersists(parse: string -> Option<real>, lines: seq<string>)
    requires lines != [] && ReadBanner(parse, lines[..|lines| - 1]).Err?
    ensures ReadBanner(parse, lines) == ReadBanner(parse, lines[..|lines| - 1])
  {
  }

  /**
    The error reported is the one of the first line that fails: once the
    first i + 1 lines fail, the lines after them are left unread.
   */
  lemma {:induction false} FirstBadLineReported(parse: string -> Option<real>, lines: seq<string>, i: nat)
    requires i < |lines|
    requires ReadBanner(parse, lines[..i]).Ok? && ReadBanner(parse, lines[..i + 1]).Err?
    ensures ReadBanner(parse, lines) == ReadBanner(parse, lines[..i + 1])
    ensures ReadBanner(parse, lines) == ReadLine(parse, ReadBanner(parse, lines[..i]).value, lines[i])
  {
    StopsAfter(parse, lines, i + 1);
    LastLineReported(parse, lines[..i + 1]);
    assert lines[..i + 1][..i] == lines[..i];
  }

  /** After a failing prefix of n lines, the rest of the banner is left unread. */
  lemma {:induction false} StopsAfter(parse: string -> Option<real>, lines: seq<string>, n: nat)
    requires n <= |lines| && ReadBanner(parse, lines[..n]).Err?
    ensures ReadBanner(parse, lines) == ReadBanner(parse, lines[..n])
    decreases |lines|
  {
    if n < |lines| {
      var init := lines[..|lines| - 1];
      assert init[..n] == lines[..n];
      StopsAfter(parse, init, n);
      ErrorPersists(parse, lines);
    } else {
      assert lines[..n] == lines;
    }
  }

  /** A failing last line after a clean prefix is the error reported. */
  lemma LastLineReported(parse: string -> Option<real>, lines: seq<string>)
    requires lines != []
    ensures var init := lines[..|lines| - 1];
      ReadBanner(parse, init).Ok? ==> ReadBanner(parse, lines) == ReadLine(parse, ReadBanner(parse, init).value, lines[|lines| - 1])
  {
  }

  lemma {:induction false} ReadKeysSucceeds(parse: string -> Option<real>, s: BannerState, line: string, keys: seq<BannerKey>)
    requires forall k :: Contains(line, Marker(k)) ==> Reading(parse, line, k).Ok?
    ensures ReadKeys(parse, s, line, keys).Ok?
    decreases |keys|
  {
    if keys != [] {
      ReadKeysSucceeds(parse, s, line, keys[..|keys| - 1]);
    }
  }

  /** The JSON record of a run: the banner's point, its cross-section, the signal. */
  datatype Record = Record(point: ParameterSpace, crossSection: real, signal: string, file: RunName)

  /**
    read_MG_output: the banner's point and cross-section, filed under the
    banner point's own name. A banner without the cross-section line fails.
   */
  function ReadOutput(parse: string -> Option<real>, outputDir: string, signal: string, lines: seq<string>): (r: Result<Record, RunError>)
    ensures r.Ok? <==> ReadBanner(parse, lines).Ok? && LastMatch(lines, CrossSectionKey).Some?
    ensures r.Ok? ==> r.value.point == ReadBanner(parse, lines).value.point && r.value.signal == signal
    ensures r.Ok? ==>
      var reading := Reading(parse, lines[LastMatch(lines, CrossSectionKey).value], CrossSectionKey);
      reading.Ok? && r.value.crossSection == reading.value
    ensures r.Ok? ==> r.value.file == RunName(outputDir, signal, Name(r.value.point))
    ensures ReadBanner(parse, lines).Ok? && LastMatch(lines, CrossSectionKey).None? ==> r == Err(MissingCrossSection)
    ensures r.Err? ==> r.error.MissingColumn? || r.error.Conversion? || r.error == MissingCrossSection
  {
    var s :- ReadBanner(parse, lines);
    LastMatchWins(parse, lines, CrossSectionKey);
    match s.crossSection
    case None => Err(MissingCrossSection)
    case Some(x) => Ok(Record(s.point, x, signal, RunName(outputDir, signal, Name(s.point))))
  }

  /**
    The record's name ends in _BR whenever the banner has a branching-ratio
    line, whatever quantity drove the run.
   */
  lemma RecordNamedAfterBranching(parse: string -> Option<real>, outputDir: string, signal: string, lines: seq<string>)
    requires ReadOutput(parse, outputDir, signal, lines).Ok?
    ensures var name := ReadOutput(parse, outputDir, signal, lines).value.file.point;
      (|name| == 4 && name[3].tag == "_BR") <==> LastMatch(lines, BranchingKey).Some?
  {
    var s := ReadBanner(parse, lines).value;
    LastMatchWins(parse, lines, BranchingKey);
    BranchingValue(s);
    BranchingValue(BannerStart);
    assert s.point.br.Some? <==> LastMatch(lines, BranchingKey).Some?;
    NameTagBranching(s.point);
    assert ReadOutput(parse, outputDir, signal, lines).value.file.point == Name(s.point);
  }

  /** The branching-ratio key holds the point's BR. */
  lemma BranchingValue(s: BannerState)
    ensures Value(s, BranchingKey) == s.point.br
  {
  }

  /** The fourth token of a name is the BR token exactly when BR is set. */
  lemma NameTagBranching(p: ParameterSpace)
    ensures var name := Name(p);
      (|name| == 4 && name[3].tag == "_BR") <==> p.br.Some?
  {
    var name := Name(p);
    if p.br.None? && |name| == 4 {
      assert name[3].tag == "_g" || name[3].tag == "_G_tot";
      assert name[3].tag[1] != 'B';
    }
  }

  // ---------------------------------------------------------------------------
  // The run

  /** The options of the command line; an empty string is an option not given. */
  datatype Options = Options(
    outputPath: string, workspacePath: string,
    mV: string, mDM: string, aR: string,
    g: string, totalWidth: string, br: string,
    signal: string)

  const DefaultOptions: Options :=
    Options("output_JSON", "workspace", "2000", "1", "0.5", "", "", "", "tt_exclusive")

  /** Some quantity a derivation could start from was given. */
  predicate DriverGiven(o: Options) {
    o.g != "" || o.totalWidth != "" || o.br != ""
  }

  /** MadGraph computes the width itself exactly when none was given. */
  function AutoWidth(o: Options): bool {
    o.totalWidth == ""
  }

  function Convert(parse: string -> Option<real>, text: string): (r: Result<real, RunError>)
    ensures r.Ok? <==> parse(text).Some?
    ensures r.Ok? ==> r.value == parse(text).value
    ensures r.Err? ==> r.error == Conversion(text)
  {
    match parse(text)
    case None => Err(Conversion(text))
    case Some(v) => Ok(v)
  }

  /** Sets a field from an option when the option was given. */
  function SetGiven(parse: string -> Option<real>, p: ParameterSpace, f: Field, text: string): (r: Result<ParameterSpace, RunError>)
    ensures text == "" ==> r == Ok(p)
    ensures text != "" && r.Ok? ==> parse(text).Some? && r.value == Set(p, f, parse(text).value)
    ensures r.Err? ==> r.error == Conversion(text)
  {
    if text == "" then Ok(p)
    else
      var v :- Convert(parse, text);
      Ok(Set(p, f, v))
  }

  /** The option was left out, or its text converts. */
  predicate Converts(parse: string -> Option<real>, text: string) {
    text == "" || parse(text).Some?
  }

  /** The value an optional quantity takes: unset when its option is left out. */
  function Given(parse: string -> Option<real>, text: string): Option<real> {
    if text == "" then None else parse(text)
  }

  /**
    The point the command line describes, before any derivation: the three
    inputs from their options, and g, BR and the width from theirs when
    given. A failed conversion is reported, the first in the order the
    script sets the fields.
   */
  function InputPoint(parse: string -> Option<real>, o: Options): (r: Result<ParameterSpace, RunError>)
    ensures r.Ok? <==>
      && parse(o.mV).Some? && parse(o.mDM).Some? && parse(o.aR).Some?
      && Converts(parse, o.g) && Converts(parse, o.br) && Converts(parse, o.totalWidth)
    ensures r.Ok? ==>
      && r.value.mV == parse(o.mV).value && r.value.mDM == parse(o.mDM).value
      && r.value.aR == parse(o.aR).value && r.value.mTop == Initial.mTop
    ensures r.Ok? ==>
      && r.value.g == Given(parse, o.g) && r.value.br == Given(parse, o.br)
      && r.value.gTot == Given(parse, o.totalWidth)
    ensures r.Ok? ==> HasDriver(r.value) == DriverGiven(o)
    ensures r.Ok? ==> (r.value.gTot.None? <==> AutoWidth(o))
    ensures parse(o.mV).None? ==> r == Err(Conversion(o.mV))
    ensures r.Err? ==> r.error.Conversion? && parse(r.error.text).None?
    ensures r.Err? ==> r.error.text in [o.mV, o.mDM, o.aR, o.g, o.br, o.totalWidth]
  {
    var mV :- Convert(parse, o.mV);
    var mDM :- Convert(parse, o.mDM);
    var aR :- Convert(parse, o.aR);
    var p := Initial.(mV := mV, mDM := mDM, aR := aR);
    var p :- SetGiven(parse, p, DarkCoupling, o.g);
    var p :- SetGiven(parse, p, BranchingRatio, o.br);
    SetGiven(parse, p, TotalWidth, o.totalWidth)
  }

  /**
    The analytic point of a run: the command line's point, resolved. A
    resolved point keeps the command line's masses and a_r, and every
    quantity given there stays close to its resolved value.
   */
  function Analytic(m: MathLib, parse: string -> Option<real>, o: Options): (r: Result<ParameterSpace, RunError>)
    requires m.Valid()
    ensures InputPoint(parse, o).Err? ==> r == Err(InputPoint(parse, o).error)
    ensures InputPoint(parse, o).Ok? ==>
      && (r.Ok? <==> CalculateAll(m, InputPoint(parse, o).value).Ok?)
      && (r.Ok? ==> r.value == CalculateAll(m, InputPoint(parse, o).value).value)
      && (r.Err? ==> r.error == Derivation(CalculateAll(m, InputPoint(parse, o).value).error))
    ensures r.Ok? ==> SameInputs(InputPoint(parse, o).value, r.value) && PresetsKept(InputPoint(parse, o).value, r.value)
    ensures r.Ok? && DriverGiven(o) ==> Resolved(r.value)
    ensures r.Ok? && DriverGiven(o) && !(o.g != "" && o.totalWidth != "") ==> WidthsAdd(m, r.value)
    ensures r.Ok? && DriverGiven(o) && !(o.g == "" && o.br != "" && o.totalWidth != "") ==> BranchingBalance(m, r.value)
    ensures r.Err? ==> r.error.Conversion? || r.error.Derivation?
  {
    var p :- InputPoint(parse, o);
    match CalculateAll(m, p)
    case Err(e) => Err(Derivation(e))
    case Ok(q) =>
      assert HasDriver(p) ==>
        && (!(p.g.Some? && p.gTot.Some?) ==> WidthsAdd(m, q))
        && (!(p.g.None? && p.br.Some? && p.gTot.Some?) ==> BranchingBalance(m, q))
      by {
        if HasDriver(p) {
          ResolutionRelations(m, p);
        }
      }
      Ok(q)
  }

  /** What a run leaves behind: a deck, a JSON record, and how it ended. */
  datatype Run = Run(deck: Option<seq<DeckLine>>, record: Option<Record>, failure: Option<RunError>)

  /**
    The script's main block. MadGraph's banner for the deck is the input
    `banner`; the record is written before the final comparison, so a run
    that ends in a mismatch still leaves its record.
   */
  function Execute(m: MathLib, parse: string -> Option<real>, o: Options, banner: seq<string>): (run: Run)
    requires m.Valid()
    ensures !DriverGiven(o) ==> run == Run(None, None, Some(InsufficientInput))
    ensures run.deck.Some? <==> DriverGiven(o) && Analytic(m, parse, o).Ok?
    ensures run.deck.Some? ==>
      run.deck.value == Deck(o.workspacePath + "/", o.signal, Analytic(m, parse, o).value, AutoWidth(o))
    ensures run.record.Some? ==> run.deck.Some? && (run.failure.None? || run.failure == Some(Mismatch))
    ensures run.failure.None? ==>
      && run.deck.Some? && run.record.Some?
      && Equal(Analytic(m, parse, o).value, run.record.value.point)
    ensures run.failure == Some(Mismatch) ==>
      && run.record.Some?
      && NotEqual(Analytic(m, parse, o).value, run.record.value.point)
    ensures DriverGiven(o) && Analytic(m, parse, o).Err? ==> run == Run(None, None, Some(Analytic(m, parse, o).error))
    ensures run.deck.Some? ==>
      (run.record.Some? <==> ReadOutput(parse, o.outputPath + "/", o.signal, banner).Ok?)
    ensures run.record.Some? ==> run.record.value == ReadOutput(parse, o.outputPath + "/", o.signal, banner).value
    ensures run.deck.Some? && ReadOutput(parse, o.outputPath + "/", o.signal, banner).Err? ==>
      run.failure == Some(ReadOutput(parse, o.outputPath + "/", o.signal, banner).error)
  {
    if !DriverGiven(o) then Run(None, None, Some(InsufficientInput))
    else
      match Analytic(m, parse, o)
      case Err(e) => Run(None, None, Some(e))
      case Ok(q) =>
        var deck := Deck(o.workspacePath + "/", o.signal, q, AutoWidth(o));
        match ReadOutput(parse, o.outputPath + "/", o.signal, banner)
        case Err(e) => Run(Some(deck), None, Some(e))
        case Ok(record) =>
          if NotEqual(q, record.point) then Run(Some(deck), Some(record), Some(Mismatch))
          else Run(Some(deck), Some(record), None)
  }

  /**
    The deck of a run sets the resolved couplings and masses, and fixes the
    width exactly when one was given on the command line.
   */
  lemma DeckOfRun(m: MathLib, parse: string -> Option<real>, o: Options, banner: seq<string>)
    requires m.Valid()
    requires Execute(m, parse, o, banner).deck.Some?
    ensures InputPoint(parse, o).Ok?
    ensures var q := Analytic(m, parse, o).value;
      && CalculateAll(m, InputPoint(parse, o).value) == Ok(q)
      && Resolved(q)
      && SetsPoint(Execute(m, parse, o, banner).deck.value, q, o.totalWidth == "")
  {
    var q := Analytic(m, parse, o).value;
    DeckSettings(o.workspacePath + "/", o.signal, q, AutoWidth(o));
  }

  /**
    A banner that lacks the coupling, width or branching-ratio line leaves
    that quantity NaN in MadGraph's point, so a run that gets that far
    always ends in the mismatch exit.
   */
  lemma IncompleteBannerMismatch(m: MathLib, parse: string -> Option<real>, o: Options, banner: seq<string>)
    requires m.Valid()
    requires Execute(m, parse, o, banner).record.Some?
    requires LastMatch(banner, DarkCouplingKey).None? || LastMatch(banner, WidthKey).None? || LastMatch(banner, BranchingKey).None?
    ensures Execute(m, parse, o, banner).failure == Some(Mismatch)
  {
    var run := Execute(m, parse, o, banner);
    var read := ReadOutput(parse, o.outputPath + "/", o.signal, banner);
    assert run.record.value == read.value;
    var s := ReadBanner(parse, banner).value;
    assert run.record.value.point == s.point;
    LastMatchWins(parse, banner, DarkCouplingKey);
    LastMatchWins(parse, banner, WidthKey);
    LastMatchWins(parse, banner, BranchingKey);
    QuantityValues(s);
    QuantityValues(BannerStart);
    assert !Resolved(s.point);
  }

  /** The coupling, width and branching-ratio keys hold the point's g, G_tot and BR. */
  lemma QuantityValues(s: BannerState)
    ensures Value(s, DarkCouplingKey) == s.point.g
    ensures Value(s, WidthKey) == s.point.gTot
    ensures Value(s, BranchingKey) == s.point.br
  {
  }

  /**
    A run whose banner reports exactly the analytic point succeeds: every
    field of a resolved point is close to itself.
   */
  lemma MatchingBannerSucceeds(m: MathLib, parse: string -> Option<real>, o: Options, banner: seq<string>)
    requires m.Valid()
    requires Execute(m, parse, o, banner).record.Some?
    requires Execute(m, parse, o, banner).record.value.point == Analytic(m, parse, o).value
    ensures Execute(m, parse, o, banner).failure.None?
  {
    EqualSelfIffResolved(Analytic(m, parse, o).value);
  }
}
