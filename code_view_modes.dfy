/**
 * The state machine of the code window: which content (source, assembly
 * or both) the user prefers, whether each content is loaded, and which
 * mode can actually be shown. The load transitions are given here as
 * functions of the old states and of whether each load would succeed;
 * the `CodeWindow` class performs them.
 */
module CodeViewModes {
  import opened Basics
  import opened CodeViewData

  datatype DisplayMode = Source | Assembly | SideBySide | Message(text: seq<char>)

  datatype SrcContentState =
    | Available
    | Unavailable
    | NotYetLoaded(path: Path)

  datatype AsmContentState =
    | Available
    | Unavailable
    | NotYetLoadedFile(path: Path, line: nat)
    | NotYetLoadedAddr(begin: Address, end: Address)

  const NothingAvailable: seq<char> := "Neither source nor assembly available!"

  /**
   * The mode that is shown: a message is always shown as preferred;
   * otherwise the preferred content when it is available, falling back to
   * whichever content is, and to a message when neither is.
   */
  function AvailableDisplayMode(preferred: DisplayMode, src: SrcContentState, asm: AsmContentState)
    : (m: DisplayMode)
    ensures preferred.Message? ==> m == preferred
    ensures !preferred.Message? ==>
      (m == Source ==> src == SrcContentState.Available)
      && (m == Assembly ==> asm == AsmContentState.Available)
      && (m == SideBySide ==> src == SrcContentState.Available && asm == AsmContentState.Available)
      && (m.Message? <==> src != SrcContentState.Available && asm != AsmContentState.Available)
      && (m.Message? ==> m.text == NothingAvailable)
    ensures preferred == Source && src == SrcContentState.Available ==> m == Source
    ensures preferred == Assembly && asm == AsmContentState.Available ==> m == Assembly
    ensures preferred == SideBySide && src == SrcContentState.Available && asm == AsmContentState.Available
      ==> m == SideBySide
    ensures !preferred.Message? && m != preferred && !m.Message? ==>
      m == if src == SrcContentState.Available then Source else Assembly
  {
    match (preferred, src, asm)
    case (Message(t), _, _) => Message(t)
    case (Source, Available, _) => Source
    case (Source, _, Available) => Assembly
    case (Assembly, _, Available) => Assembly
    case (Assembly, Available, _) => Source
    case (SideBySide, Available, Available) => SideBySide
    case (SideBySide, Available, _) => Source
    case (SideBySide, _, Available) => Assembly
    case (_, _, _) => Message(NothingAvailable)
  }

  /** The mode one toggle asks for: Source, then side by side, then Assembly, then Source again. */
  function NextMode(m: DisplayMode): (n: DisplayMode)
    ensures n.Message? <==> m.Message?
    ensures m.Message? ==> n == m
    ensures !m.Message? ==> n != m
  {
    match m
    case Assembly => Source
    case SideBySide => Assembly
    case Source => SideBySide
    case Message(t) => Message(t)
  }

  /** Three toggles come back to the mode they started from. */
  lemma ToggleCycle(m: DisplayMode)
    ensures NextMode(NextMode(NextMode(m))) == m
    ensures m == Source ==> NextMode(m) == SideBySide && NextMode(NextMode(m)) == Assembly
  {
  }

  /** Showing the shown mode again shows the same thing. */
  lemma AvailableModeIsStable(preferred: DisplayMode, src: SrcContentState, asm: AsmContentState)
    ensures var m := AvailableDisplayMode(preferred, src, asm);
      AvailableDisplayMode(m, src, asm) == m
  {
  }

  // ---------------------------------------------------------------------
  // Loading

  /** A pending source load ends in Available or Unavailable; any other state stays. */
  function SrcAfterLoad(s: SrcContentState, opens: bool): (t: SrcContentState)
    ensures s.NotYetLoaded? ==> !t.NotYetLoaded?
    ensures s.NotYetLoaded? ==> (t == SrcContentState.Available <==> opens)
    ensures !s.NotYetLoaded? ==> t == s
  {
    if s.NotYetLoaded? then
      (if opens then SrcContentState.Available else SrcContentState.Unavailable)
    else s
  }

  /**
   * The lines a pending assembly load of `a` would show: those of its file
   * and line, or of its address range; nothing new for any other state.
   */
  function AsmLines(a: AsmContentState, dbg: Debugger): (r: Result<seq<AssemblyLine>, DisassembleError>)
    ensures r.Success? ==> SortedBy(r.value, LineAddress)
  {
    match a
    case NotYetLoadedFile(path, line) => ShowFileLines(path, line, dbg)
    case NotYetLoadedAddr(begin, end) => ShowAddressLines(begin, end, dbg)
    case _ => Success([])
  }

  /** Whether the pending assembly load of `a` would succeed. */
  predicate AsmLoads(a: AsmContentState, dbg: Debugger) {
    AsmLines(a, dbg).Success?
  }

  /** A pending assembly load ends in Available or Unavailable; any other state stays. */
  function AsmAfterLoad(a: AsmContentState, dbg: Debugger): (t: AsmContentState)
    ensures a.NotYetLoadedFile? || a.NotYetLoadedAddr? ==>
      t == (if AsmLoads(a, dbg) then AsmContentState.Available else AsmContentState.Unavailable)
    ensures !(a.NotYetLoadedFile? || a.NotYetLoadedAddr?) ==> t == a
  {
    match a
    case NotYetLoadedFile(_, _) =>
      if AsmLoads(a, dbg) then AsmContentState.Available else AsmContentState.Unavailable
    case NotYetLoadedAddr(_, _) =>
      if AsmLoads(a, dbg) then AsmContentState.Available else AsmContentState.Unavailable
    case _ => a
  }

  predicate Pending(a: AsmContentState) {
    a.NotYetLoadedFile? || a.NotYetLoadedAddr?
  }

  /**
   * The content states after loading what the preferred mode needs: side
   * by side loads both; a single mode loads its own content and, only
   * when that turns out unavailable, the other one; a message loads
   * nothing. `opens` says whether the pending source would open.
   */
  function ActiveLoad(mode: DisplayMode, s: SrcContentState, a: AsmContentState, opens: bool, dbg: Debugger)
    : (r: (SrcContentState, AsmContentState))
    ensures mode.Message? ==> r == (s, a)
    ensures r.0 == s || r.0 == SrcAfterLoad(s, opens)
    ensures r.1 == a || r.1 == AsmAfterLoad(a, dbg)
    ensures mode == Source || mode == SideBySide ==> r.0 == SrcAfterLoad(s, opens)
    ensures mode == Assembly || mode == SideBySide ==> r.1 == AsmAfterLoad(a, dbg)
    ensures mode == Source && r.0 != SrcContentState.Unavailable ==> r.1 == a
    ensures mode == Assembly && r.1 != AsmContentState.Unavailable ==> r.0 == s
  {
    match mode
    case SideBySide => (SrcAfterLoad(s, opens), AsmAfterLoad(a, dbg))
    case Assembly =>
      var a' := AsmAfterLoad(a, dbg);
      (if a' == AsmContentState.Unavailable then SrcAfterLoad(s, opens) else s, a')
    case Source =>
      var s' := SrcAfterLoad(s, opens);
      (s', if s' == SrcContentState.Unavailable then AsmAfterLoad(a, dbg) else a)
    case Message(_) => (s, a)
  }

  /**
   * After loading, the preferred content is no longer pending, and neither
   * is the fallback content when the preferred one is unavailable; a
   * message loads nothing.
   */
  lemma ActiveLoadSettles(mode: DisplayMode, s: SrcContentState, a: AsmContentState, opens: bool, dbg: Debugger)
    ensures var (s', a') := ActiveLoad(mode, s, a, opens, dbg);
      (mode == SideBySide ==> !s'.NotYetLoaded? && !Pending(a'))
      && (mode == Source ==> !s'.NotYetLoaded? && (s' == SrcContentState.Unavailable ==> !Pending(a')))
      && (mode == Assembly ==> !Pending(a') && (a' == AsmContentState.Unavailable ==> !s'.NotYetLoaded?))
      && (mode.Message? ==> s' == s && a' == a)
  {
  }

  /** Loading again changes nothing, whatever the source file now does. */
  lemma ActiveLoadIdempotent(mode: DisplayMode, s: SrcContentState, a: AsmContentState, opens: bool, opens2: bool, dbg: Debugger)
    ensures var (s', a') := ActiveLoad(mode, s, a, opens, dbg);
      ActiveLoad(mode, s', a', opens2, dbg) == (s', a')
  {
  }

  /**
   * Whether loading for `mode` tries the pending source; `a` is the
   * assembly state after loading, which for Assembly comes first.
   */
  predicate LoadsSource(mode: DisplayMode, a: AsmContentState) {
    mode == SideBySide || mode == Source || (mode == Assembly && a == AsmContentState.Unavailable)
  }

  /**
   * Whether loading for `mode` tries the pending assembly; `s` is the
   * source state after loading, which for Source comes first.
   */
  predicate LoadsAsm(mode: DisplayMode, s: SrcContentState) {
    mode == SideBySide || mode == Assembly || (mode == Source && s == SrcContentState.Unavailable)
  }

  /**
   * Whether showing `path` in the source view needs a (re)load: another
   * file is loaded, none is, or the loaded one changed on disk since.
   */
  function NeedToLoad(loaded: Option<Path>, path: Path, dbg: Debugger): (need: bool)
    ensures loaded.None? ==> need
    ensures loaded.Some? && loaded.value != path ==> need
    ensures loaded == Some(path) ==> (need <==> dbg.modifiedSinceLoad(path))
  {
    loaded != Some(path) || dbg.modifiedSinceLoad(path)
  }

  /** Whether the pending source of `s` would be shown: it needs no load, or the file opens. */
  predicate SourceOpens(s: SrcContentState, loaded: Option<Path>, dbg: Debugger) {
    s.NotYetLoaded? ==> !NeedToLoad(loaded, s.path, dbg) || dbg.canOpen(s.path)
  }

  // ---------------------------------------------------------------------
  // Showing a stack frame

  /** The approximate size of the block disassembled when no function range is found. */
  const FallbackBlockSize: nat := 128

  /**
   * The address range to disassemble around `at`: the function containing
   * it when that is found, otherwise a valid range starting at `at`.
   */
  function FrameRange(at: Address, dbg: Debugger): (r: Result<(Address, Address), DisassembleError>)
    ensures dbg.functionRange(at).Some? ==> r == Success(dbg.functionRange(at).value)
    ensures dbg.functionRange(at).None? ==>
      r == FindValidAddressRange(at, dbg.disassembleAddress(at, at + FallbackBlockSize))
    ensures r.Success? && dbg.functionRange(at).None? ==> r.value.0 == at
  {
    if dbg.functionRange(at).Some? then Success(dbg.functionRange(at).value)
    else FindValidAddressRange(at, dbg.disassembleAddress(at, at + FallbackBlockSize))
  }

  /**
   * The content states a frame asks for before anything is loaded: its
   * source file when it names one; the assembly of its file and line when
   * it names both, otherwise of the range around its address when one is
   * found.
   */
  function FrameStates(frame: Frame, dbg: Debugger): (r: (SrcContentState, AsmContentState))
    ensures r.0.NotYetLoaded? <==> frame.fullname.Some?
    ensures r.0.NotYetLoaded? ==> r.0.path == frame.fullname.value
    ensures !r.0.NotYetLoaded? ==> r.0 == SrcContentState.Unavailable
    ensures frame.fullname.Some? && frame.line.Some? ==>
      r.1 == NotYetLoadedFile(frame.fullname.value, frame.line.value)
    ensures !(frame.fullname.Some? && frame.line.Some?) ==>
      (r.1.NotYetLoadedAddr? <==> frame.addr.Some? && FrameRange(frame.addr.value, dbg).Success?)
    ensures r.1.NotYetLoadedAddr? ==> (r.1.begin, r.1.end) == FrameRange(frame.addr.value, dbg).value
    ensures !Pending(r.1) ==> r.1 == AsmContentState.Unavailable
  {
    var s := if frame.fullname.Some? then NotYetLoaded(frame.fullname.value) else SrcContentState.Unavailable;
    var a :=
      if frame.fullname.Some? && frame.line.Some? then NotYetLoadedFile(frame.fullname.value, frame.line.value)
      else if frame.addr.Some? && FrameRange(frame.addr.value, dbg).Success? then
        NotYetLoadedAddr(FrameRange(frame.addr.value, dbg).value.0, FrameRange(frame.addr.value, dbg).value.1)
      else AsmContentState.Unavailable;
    (s, a)
  }

  /** The content states after showing `frame` in `mode`, with `loaded` the file the source view holds. */
  function FrameLoad(mode: DisplayMode, frame: Frame, loaded: Option<Path>, dbg: Debugger)
    : (r: (SrcContentState, AsmContentState))
    ensures mode.Message? ==> r == FrameStates(frame, dbg)
    ensures frame.fullname.None? ==> r.0 == SrcContentState.Unavailable
    ensures r.0.NotYetLoaded? ==> r.0 == FrameStates(frame, dbg).0
    ensures Pending(r.1) ==> r.1 == FrameStates(frame, dbg).1
  {
    var (s, a) := FrameStates(frame, dbg);
    ActiveLoad(mode, s, a, SourceOpens(s, loaded, dbg), dbg)
  }

  /** The mode a frame is shown in: a message gives way to the source. */
  function FrameMode(preferred: DisplayMode): (m: DisplayMode)
    ensures !m.Message?
    ensures !preferred.Message? ==> m == preferred
  {
    if preferred.Message? then Source else preferred
  }

  /**
   * After a frame is shown, the content its mode prefers is settled, and
   * so is the fallback when the preferred content is unavailable.
   */
  lemma FrameLoadSettles(preferred: DisplayMode, frame: Frame, loaded: Option<Path>, dbg: Debugger)
    ensures var mode := FrameMode(preferred);
      var (s, a) := FrameLoad(mode, frame, loaded, dbg);
      (mode == SideBySide ==> !s.NotYetLoaded? && !Pending(a))
      && (mode == Source ==> !s.NotYetLoaded? && (s == SrcContentState.Unavailable ==> !Pending(a)))
      && (mode == Assembly ==> !Pending(a) && (a == AsmContentState.Unavailable ==> !s.NotYetLoaded?))
  {
    var (s0, a0) := FrameStates(frame, dbg);
    ActiveLoadSettles(FrameMode(preferred), s0, a0, SourceOpens(s0, loaded, dbg), dbg);
  }

  // ---------------------------------------------------------------------
  // Stack frames

  /**
   * The frame level one step up or down the stack from `level`: up is one
   * outer frame but never past the outermost (`depth - 1`, or 0 for an
   * empty stack); down is one inner frame, stopping at 0.
   */
  function NewLevel(level: nat, up: bool, depth: nat): (n: nat)
    ensures up ==> (n == level + 1 <==> level + 1 < depth)
    ensures up ==> n <= level + 1 && (n < depth || n == 0)
    ensures up && level + 1 >= depth ==> n == if depth == 0 then 0 else depth - 1
    ensures !up ==> n <= level && (n == level <==> level == 0)
    ensures !up && level > 0 ==> n == level - 1
  {
    if up then
      var outermost := if depth == 0 then 0 else depth - 1;
      if level + 1 < outermost then level + 1 else outermost
    else if level == 0 then 0 else level - 1
  }

  /**
   * The level a stack step selects, when it can be computed: a step down
   * needs only the level; a step up also needs the depth, and a failed
   * depth exchange (`None`) abandons the step.
   */
  function StepTarget(level: nat, up: bool, depth: Option<Result<nat, GDBResponseError>>): (t: Option<nat>)
    ensures !up ==> t == Some(NewLevel(level, false, 0))
    ensures up ==> (t.Some? <==> depth.Some? && depth.value.Success?)
    ensures up && t.Some? ==> t.value == NewLevel(level, true, depth.value.value)
  {
    if !up then Some(NewLevel(level, false, 0))
    else if depth.Some? && depth.value.Success? then Some(NewLevel(level, true, depth.value.value))
    else None
  }
}
