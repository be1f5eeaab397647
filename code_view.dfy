/**
 * The code window of the debugger front end: a source view, an assembly
 * view, and the window that decides which of them to load and show.
 * Pager contents are modelled by what the decorators are built from: the
 * loaded file for the source view, the shown lines for the assembly view.
 */
module CodeView {
  import opened Basics
  import opened CodeViewData
  import opened CodeViewModes

  /** Errors of the pager; `NoMatchingLine`: no line satisfies the jump's condition. */
  datatype PagerError = NoContent | NoMatchingLine

  datatype GotoError = NoLastStopPosition | MismatchedPagerContent | PagerFailure(error: PagerError)

  datatype PagerShowError = CouldNotOpenFile(path: Path)

  /** The line of the stop position `stop`, when it is in `file`. */
  function StopLineIn(stop: Option<SrcPosition>, file: Path): Option<nat> {
    if stop.Some? && stop.value.file == file then Some(stop.value.line) else None
  }

  /**
   * The source view's file and decorator after a load of `s`, from the
   * file and decorator before it: a pending file that is shown is
   * decorated afresh; otherwise nothing changes.
   */
  function SourceViewAfterLoad(s: SrcContentState, fileInfo: Option<Path>, decorator: Option<SourceDecorator>,
                               stop: Option<SrcPosition>, dbg: Debugger): (Option<Path>, Option<SourceDecorator>)
  {
    if s.NotYetLoaded? && SourceOpens(s, fileInfo, dbg) then
      (Some(s.path), Some(NewSourceDecorator(s.path, StopLineIn(stop, s.path), dbg.breakpoints)))
    else (fileInfo, decorator)
  }

  /**
   * The assembly view's lines and decorator after showing `ls`: empty `ls`
   * shows nothing new; other lines are decorated over their address range.
   */
  function Showing(lines: seq<AssemblyLine>, decorator: Option<AssemblyDecorator>, stop: Option<Address>,
                   ls: seq<AssemblyLine>, bps: seq<BreakPoint>): (seq<AssemblyLine>, Option<AssemblyDecorator>)
  {
    if |ls| == 0 then (lines, decorator)
    else
      var range := ShownAddressRange(ls);
      (ls, Some(NewAssemblyDecorator(range.0, range.1, stop, bps)))
  }

  /** The assembly view's lines and decorator after a load of `a`: the loaded lines when the load succeeds. */
  function AssemblyViewAfterLoad(a: AsmContentState, lines: seq<AssemblyLine>, decorator: Option<AssemblyDecorator>,
                                 stop: Option<Address>, dbg: Debugger): (seq<AssemblyLine>, Option<AssemblyDecorator>)
  {
    if AsmLines(a, dbg).Success? then Showing(lines, decorator, stop, AsmLines(a, dbg).value, dbg.breakpoints)
    else (lines, decorator)
  }

  /** The source view: the loaded file, its decorator, and where the program last stopped. */
  class SourceView {
    var fileInfo: Option<Path>
    var decorator: Option<SourceDecorator>
    var lastStopPosition: Option<SrcPosition>
    var stackLevel: Option<nat>

    /** A file is loaded exactly when there is pager content, and so a decorator. */
    ghost predicate Valid()
      reads this
    {
      fileInfo.Some? <==> decorator.Some?
    }

    constructor ()
      ensures Valid()
      ensures fileInfo == None && decorator == None && lastStopPosition == None && stackLevel == None
    {
      fileInfo := None;
      decorator := None;
      lastStopPosition := None;
      stackLevel := None;
    }

    method SetLastStopPosition(file: Path, line: nat)
      modifies this`lastStopPosition
      ensures lastStopPosition == Some(SrcPosition(file, line))
    {
      lastStopPosition := Some(SrcPosition(file, line));
    }

    /** The line the program last stopped at, when that was in `file`. */
    function LastLineNumberFor(file: Path): (n: Option<nat>)
      reads this
      ensures n.Some? <==> lastStopPosition.Some? && lastStopPosition.value.file == file
      ensures n.Some? ==> n.value == lastStopPosition.value.line
    {
      StopLineIn(lastStopPosition, file)
    }

    /**
     * The line to jump to for the last stop: there must be content, a stop
     * position, and the stop must be in the loaded file.
     */
    function GoToLastStopPosition(): (r: Result<nat, GotoError>)
      reads this
      ensures fileInfo.None? ==> r == Failure(PagerFailure(NoContent))
      ensures fileInfo.Some? && lastStopPosition.None? ==> r == Failure(NoLastStopPosition)
      ensures fileInfo.Some? && lastStopPosition.Some? && lastStopPosition.value.file != fileInfo.value ==>
        r == Failure(MismatchedPagerContent)
      ensures r.Success? <==>
        fileInfo.Some? && lastStopPosition.Some? && lastStopPosition.value.file == fileInfo.value
      ensures r.Success? ==> Some(r.value) == LastLineNumberFor(fileInfo.value)
    {
      if fileInfo.None? then Failure(PagerFailure(NoContent))
      else if lastStopPosition.None? then Failure(NoLastStopPosition)
      else if lastStopPosition.value.file != fileInfo.value then Failure(MismatchedPagerContent)
      else Success(lastStopPosition.value.line)
    }

    /** Rebuilds the decorator of the loaded file from the current breakpoints. */
    method UpdateDecoration(bps: seq<BreakPoint>)
      requires Valid()
      modifies this`decorator
      ensures Valid()
      ensures fileInfo.Some? ==>
        decorator == Some(NewSourceDecorator(fileInfo.value, LastLineNumberFor(fileInfo.value), bps))
      ensures fileInfo.None? ==> decorator == None
    {
      if fileInfo.Some? {
        var file := fileInfo.value;
        decorator := Some(NewSourceDecorator(file, LastLineNumberFor(file), bps));
      }
    }

    /**
     * Shows `path`: loads it when it is not the loaded file or changed on
     * disk, and in any case decorates it afresh; a file that does not open
     * leaves the view as it was.
     */
    method Show(path: Path, dbg: Debugger) returns (r: Result<(), PagerShowError>)
      requires Valid()
      modifies this`fileInfo, this`decorator
      ensures Valid()
      ensures r.Success? <==> !NeedToLoad(old(fileInfo), path, dbg) || dbg.canOpen(path)
      ensures r.Failure? ==>
        r.error == CouldNotOpenFile(path) && fileInfo == old(fileInfo) && decorator == old(decorator)
      ensures r.Success? ==>
        fileInfo == Some(path)
        && decorator == Some(NewSourceDecorator(path, LastLineNumberFor(path), dbg.breakpoints))
    {
      if NeedToLoad(fileInfo, path, dbg) {
        if !dbg.canOpen(path) {
          return Failure(CouldNotOpenFile(path));
        }
        decorator := Some(NewSourceDecorator(path, LastLineNumberFor(path), dbg.breakpoints));
        fileInfo := Some(path);
      } else {
        decorator := Some(NewSourceDecorator(path, LastLineNumberFor(path), dbg.breakpoints));
      }
      return Success(());
    }
  }

  /**
   * After a successful show, the decorator's stop mark and the last-stop
   * jump agree: both exist exactly when the program last stopped in the
   * shown file, and name the same line.
   */
  lemma StopMarkMatchesJump(v: SourceView, bps: seq<BreakPoint>)
    requires v.fileInfo.Some?
    requires v.decorator == Some(NewSourceDecorator(v.fileInfo.value, v.LastLineNumberFor(v.fileInfo.value), bps))
    ensures v.decorator.value.stopPosition.Some? <==> v.GoToLastStopPosition().Success?
    ensures v.GoToLastStopPosition().Success? ==>
      v.decorator.value.stopPosition == Some(v.GoToLastStopPosition().value)
  {
  }

  /** The assembly view: the shown lines, sorted by address, and their decorator. */
  class AssemblyView {
    var lines: seq<AssemblyLine>
    var decorator: Option<AssemblyDecorator>
    var lastStopPosition: Option<Address>

    /** There is a decorator exactly when lines are shown. */
    ghost predicate Valid()
      reads this
    {
      |lines| > 0 <==> decorator.Some?
    }

    constructor ()
      ensures Valid()
      ensures lines == [] && decorator == None && lastStopPosition == None
    {
      lines := [];
      decorator := None;
      lastStopPosition := None;
    }

    method SetLastStopPosition(a: Address)
      modifies this`lastStopPosition
      ensures lastStopPosition == Some(a)
    {
      lastStopPosition := Some(a);
    }

    /** The lines and decorator after showing `ls`: empty `ls` shows nothing new. */
    function AfterShowing(ls: seq<AssemblyLine>, bps: seq<BreakPoint>): (seq<AssemblyLine>, Option<AssemblyDecorator>)
      reads this
    {
      Showing(lines, decorator, lastStopPosition, ls, bps)
    }

    /** Shows sorted lines, decorated over the range from the first address to one past the last. */
    method ShowLines(ls: seq<AssemblyLine>, bps: seq<BreakPoint>)
      requires Valid()
      modifies this`lines, this`decorator
      ensures Valid()
      ensures (lines, decorator) == old(AfterShowing(ls, bps))
    {
      if |ls| == 0 {
        return;
      }
      var range := ShownAddressRange(ls);
      lines := ls;
      decorator := Some(NewAssemblyDecorator(range.0, range.1, lastStopPosition, bps));
    }

    /**
     * Rebuilds the decorator of the shown lines from the current
     * breakpoints, over the same range as when they were shown.
     */
    method UpdateDecoration(bps: seq<BreakPoint>)
      requires Valid()
      modifies this`decorator
      ensures Valid()
      ensures (lines, decorator) == AfterShowing(lines, bps)
    {
      if |lines| > 0 {
        var range := ShownAddressRange(lines);
        decorator := Some(NewAssemblyDecorator(range.0, range.1, lastStopPosition, bps));
      }
    }

    /** Shows the assembly of a source file around a line. */
    method ShowFile(path: Path, line: nat, dbg: Debugger) returns (r: Result<(), DisassembleError>)
      requires Valid()
      modifies this`lines, this`decorator
      ensures Valid()
      ensures r.Success? <==> ShowFileLines(path, line, dbg).Success?
      ensures r.Failure? ==>
        r.error == ShowFileLines(path, line, dbg).error && lines == old(lines) && decorator == old(decorator)
      ensures r.Success? ==>
        (lines, decorator) == old(AfterShowing(ShowFileLines(path, line, dbg).value, dbg.breakpoints))
      ensures old(SortedBy(lines, LineAddress)) ==> SortedBy(lines, LineAddress)
    {
      var reply := dbg.disassembleFile(path, line);
      if reply.Failure? {
        return Failure(GDB(Execution(reply.error)));
      }
      var ls := GetInstructions(reply.value);
      if ls.Failure? {
        return Failure(GDB(ls.error));
      }
      assert ls.value == ShowFileLines(path, line, dbg).value;
      ShowLines(ls.value, dbg.breakpoints);
      return Success(());
    }

    /** Shows the disassembly of an address range. */
    method ShowAddress(begin: Address, end: Address, dbg: Debugger) returns (r: Result<(), DisassembleError>)
      requires Valid()
      modifies this`lines, this`decorator
      ensures Valid()
      ensures r.Success? <==> ShowAddressLines(begin, end, dbg).Success?
      ensures r.Failure? ==>
        r.error == ShowAddressLines(begin, end, dbg).error && lines == old(lines) && decorator == old(decorator)
      ensures r.Success? ==>
        (lines, decorator) == old(AfterShowing(ShowAddressLines(begin, end, dbg).value, dbg.breakpoints))
      ensures old(SortedBy(lines, LineAddress)) ==> SortedBy(lines, LineAddress)
    {
      var rs := DisassembleAddress(dbg.disassembleAddress(begin, end));
      if rs.Failure? {
        return Failure(rs.error);
      }
      var ls := AddressLines(rs.value);
      if ls.Failure? {
        return Failure(GDB(ls.error));
      }
      assert ls.value == ShowAddressLines(begin, end, dbg).value;
      ShowLines(ls.value, dbg.breakpoints);
      return Success(());
    }
  }

  /**
   * In an assembly view showing sorted lines, decorated for the current breakpoints, every
   * enabled breakpoint at a shown line is marked, and so is the stop
   * position when it is at a shown line.
   */
  lemma ShownLinesAreMarked(v: AssemblyView, bps: seq<BreakPoint>, k: nat)
    requires v.Valid() && SortedBy(v.lines, LineAddress) && k < |v.lines|
    requires (v.lines, v.decorator) == v.AfterShowing(v.lines, bps)
    ensures forall b :: b in bps && b.enabled && b.address == Some(v.lines[k].address) ==>
      v.lines[k].address in v.decorator.value.breakpointAddresses
    ensures v.lastStopPosition == Some(v.lines[k].address) ==> v.decorator.value.stopPosition == v.lastStopPosition
  {
    ShownRangeMarksEveryLine(v.lines, v.lastStopPosition, bps, k);
  }

  /** The code window: two views, the preferred mode, and the load state of each content. */
  class CodeWindow {
    const srcView: SourceView
    const asmView: AssemblyView
    var preferredMode: DisplayMode
    var srcState: SrcContentState
    var asmState: AsmContentState

    /** Both views are consistent, and the assembly view shows lines sorted by address. */
    ghost predicate Valid()
      reads this, srcView, asmView
    {
      srcView.Valid() && asmView.Valid() && SortedBy(asmView.lines, LineAddress)
    }

    /** A new window shows the welcome message and has no content. */
    constructor (welcome: seq<char>)
      ensures Valid() && fresh(srcView) && fresh(asmView)
      ensures preferredMode == Message(welcome)
      ensures srcState == SrcContentState.Unavailable && asmState == AsmContentState.Unavailable
      ensures srcView.fileInfo == None && srcView.lastStopPosition == None && srcView.stackLevel == None
      ensures asmView.lines == [] && asmView.lastStopPosition == None
    {
      srcView := new SourceView();
      asmView := new AssemblyView();
      preferredMode := Message(welcome);
      srcState := SrcContentState.Unavailable;
      asmState := AsmContentState.Unavailable;
    }

    /** Loads a pending source file: Available when it is shown, Unavailable when not. */
    method TryLoadSourceContent(dbg: Debugger) returns (r: Result<(), PagerShowError>)
      requires Valid()
      modifies this`srcState, srcView`fileInfo, srcView`decorator
      ensures Valid()
      ensures srcState == SrcAfterLoad(old(srcState), SourceOpens(old(srcState), old(srcView.fileInfo), dbg))
      ensures old(srcState).NotYetLoaded? ==> (r.Success? <==> srcState == SrcContentState.Available)
      ensures r.Failure? ==>
        old(srcState).NotYetLoaded? && r.error == CouldNotOpenFile(old(srcState).path)
        && srcView.fileInfo == old(srcView.fileInfo) && srcView.decorator == old(srcView.decorator)
      ensures !old(srcState).NotYetLoaded? ==>
        r.Success? && srcView.fileInfo == old(srcView.fileInfo) && srcView.decorator == old(srcView.decorator)
      ensures old(srcState).NotYetLoaded? && r.Success? ==>
        var path := old(srcState).path;
        srcView.fileInfo == Some(path)
        && srcView.decorator == Some(NewSourceDecorator(path, srcView.LastLineNumberFor(path), dbg.breakpoints))
      ensures (srcView.fileInfo, srcView.decorator) ==
        SourceViewAfterLoad(old(srcState), old(srcView.fileInfo), old(srcView.decorator), srcView.lastStopPosition, dbg)
    {
      match srcState {
        case NotYetLoaded(path) =>
          r := srcView.Show(path, dbg);
          if r.Success? {
            srcState := SrcContentState.Available;
          } else {
            srcState := SrcContentState.Unavailable;
          }
        case _ =>
          r := Success(());
      }
    }

    /** Loads pending assembly, from a file and line or from an address range. */
    method TryLoadAsmContent(dbg: Debugger) returns (r: Result<(), DisassembleError>)
      requires Valid()
      modifies this`asmState, asmView`lines, asmView`decorator
      ensures Valid()
      ensures asmState == AsmAfterLoad(old(asmState), dbg)
      ensures r.Success? <==> AsmLines(old(asmState), dbg).Success?
      ensures r.Failure? ==>
        r.error == AsmLines(old(asmState), dbg).error
        && asmView.lines == old(asmView.lines) && asmView.decorator == old(asmView.decorator)
      ensures r.Success? ==>
        (asmView.lines, asmView.decorator) == old(asmView.AfterShowing(AsmLines(asmState, dbg).value, dbg.breakpoints))
      ensures (asmView.lines, asmView.decorator) ==
        AssemblyViewAfterLoad(old(asmState), old(asmView.lines), old(asmView.decorator), asmView.lastStopPosition, dbg)
    {
      match asmState {
        case NotYetLoadedFile(path, line) =>
          r := asmView.ShowFile(path, line, dbg);
        case NotYetLoadedAddr(begin, end) =>
          r := asmView.ShowAddress(begin, end, dbg);
        case _ =>
          return Success(());
      }
      asmState := if r.Success? then AsmContentState.Available else AsmContentState.Unavailable;
    }

    /**
     * Loads what the preferred mode needs, falling back to the other
     * content when the preferred one turns out unavailable; load errors
     * are only logged.
     */
    method TryLoadActiveContent(dbg: Debugger)
      requires Valid()
      modifies this`srcState, this`asmState, srcView`fileInfo, srcView`decorator, asmView`lines, asmView`decorator
      ensures Valid()
      ensures (srcState, asmState) ==
        ActiveLoad(preferredMode, old(srcState), old(asmState), SourceOpens(old(srcState), old(srcView.fileInfo), dbg), dbg)
      ensures (srcView.fileInfo, srcView.decorator) ==
        if LoadsSource(preferredMode, asmState) then
          SourceViewAfterLoad(old(srcState), old(srcView.fileInfo), old(srcView.decorator), srcView.lastStopPosition, dbg)
        else (old(srcView.fileInfo), old(srcView.decorator))
      ensures (asmView.lines, asmView.decorator) ==
        if LoadsAsm(preferredMode, srcState) then
          AssemblyViewAfterLoad(old(asmState), old(asmView.lines), old(asmView.decorator), asmView.lastStopPosition, dbg)
        else (old(asmView.lines), old(asmView.decorator))
    {
      match preferredMode {
        case SideBySide =>
          var _ := TryLoadSourceContent(dbg);
          var _ := TryLoadAsmContent(dbg);
        case Assembly =>
          var _ := TryLoadAsmContent(dbg);
          if asmState == AsmContentState.Unavailable {
            var _ := TryLoadSourceContent(dbg);
          }
        case Source =>
          var _ := TryLoadSourceContent(dbg);
          if srcState == SrcContentState.Unavailable {
            var _ := TryLoadAsmContent(dbg);
          }
        case Message(_) =>
      }
    }

    /**
     * Switches to the next mode of the cycle, unless after loading the
     * window would still show the previous preferred mode, in which case
     * the previous preference is kept. Going from source to side by side
     * also shows the assembly of the current source line.
     */
    method ToggleMode(dbg: Debugger, currentLine: nat)
      requires Valid()
      modifies this`preferredMode, this`srcState, this`asmState
      modifies srcView`fileInfo, srcView`decorator, asmView`lines, asmView`decorator
      ensures Valid()
      ensures var next := NextMode(old(preferredMode));
        var loaded := ActiveLoad(next, old(srcState), old(asmState), SourceOpens(old(srcState), old(srcView.fileInfo), dbg), dbg);
        (srcState, asmState) == loaded
        && preferredMode == if AvailableDisplayMode(next, loaded.0, loaded.1) == old(preferredMode) then old(preferredMode) else next
      ensures old(preferredMode).Message? ==> preferredMode == old(preferredMode)
      ensures var next := NextMode(old(preferredMode));
        var loaded := ActiveLoad(next, old(srcState), old(asmState), SourceOpens(old(srcState), old(srcView.fileInfo), dbg), dbg);
        (srcView.fileInfo, srcView.decorator) ==
          if LoadsSource(next, loaded.1) then
            SourceViewAfterLoad(old(srcState), old(srcView.fileInfo), old(srcView.decorator), srcView.lastStopPosition, dbg)
          else (old(srcView.fileInfo), old(srcView.decorator))
      ensures var next := NextMode(old(preferredMode));
        var loaded := ActiveLoad(next, old(srcState), old(asmState), SourceOpens(old(srcState), old(srcView.fileInfo), dbg), dbg);
        var afterLoad :=
          if LoadsAsm(next, loaded.0) then
            AssemblyViewAfterLoad(old(asmState), old(asmView.lines), old(asmView.decorator), asmView.lastStopPosition, dbg)
          else (old(asmView.lines), old(asmView.decorator));
        var syncs := old(preferredMode) == Source && preferredMode == SideBySide && srcView.fileInfo.Some?;
        (asmView.lines, asmView.decorator) ==
          if syncs && ShowFileLines(srcView.fileInfo.value, currentLine, dbg).Success? then
            Showing(afterLoad.0, afterLoad.1, asmView.lastStopPosition,
                    ShowFileLines(srcView.fileInfo.value, currentLine, dbg).value, dbg.breakpoints)
          else afterLoad
    {
      var syncAsmToSrc := false;
      var prevMode := preferredMode;
      match prevMode {
        case Assembly => preferredMode := Source;
        case SideBySide => preferredMode := Assembly;
        case Source =>
          syncAsmToSrc := true;
          preferredMode := SideBySide;
        case Message(m) => preferredMode := Message(m);
      }
      TryLoadActiveContent(dbg);
      if AvailableDisplayMode(preferredMode, srcState, asmState) == prevMode {
        preferredMode := prevMode;
      } else if syncAsmToSrc {
        if srcView.fileInfo.Some? {
          var _ := asmView.ShowFile(srcView.fileInfo.value, currentLine, dbg);
        }
      }
    }

    /**
     * What showing `frame` does to the window: the mode leaves a message
     * for the source; the stack level is GDB's; the stop positions are the
     * frame's where it names them; the content states are the frame's,
     * loaded for the mode; and each view holds what its load, when it
     * runs, shows.
     */
    twostate predicate ShowedFrame(frame: Frame, dbg: Debugger)
      reads this, srcView, asmView
    {
      var (s0, a0) := FrameStates(frame, dbg);
      preferredMode == FrameMode(old(preferredMode))
      && (srcState, asmState) == FrameLoad(preferredMode, frame, old(srcView.fileInfo), dbg)
      && srcView.stackLevel == (if dbg.stackLevel.Success? then Some(dbg.stackLevel.value) else None)
      && srcView.lastStopPosition ==
           (if frame.fullname.Some? && frame.line.Some? then Some(SrcPosition(frame.fullname.value, frame.line.value))
            else old(srcView.lastStopPosition))
      && asmView.lastStopPosition == (if frame.addr.Some? then frame.addr else old(asmView.lastStopPosition))
      && (srcView.fileInfo, srcView.decorator) ==
           (if LoadsSource(preferredMode, asmState) then
              SourceViewAfterLoad(s0, old(srcView.fileInfo), old(srcView.decorator), srcView.lastStopPosition, dbg)
            else (old(srcView.fileInfo), old(srcView.decorator)))
      && (asmView.lines, asmView.decorator) ==
           (if LoadsAsm(preferredMode, srcState) then
              AssemblyViewAfterLoad(a0, old(asmView.lines), old(asmView.decorator), asmView.lastStopPosition, dbg)
            else (old(asmView.lines), old(asmView.decorator)))
    }

    /**
     * Shows a stack frame: leaves a message for the source, records the
     * stack level and the stop position, decides from the frame which
     * contents to load, and loads what the preferred mode needs.
     */
    method ShowFrame(frame: Frame, dbg: Debugger)
      requires Valid()
      modifies this`preferredMode, this`srcState, this`asmState
      modifies srcView`fileInfo, srcView`decorator, srcView`lastStopPosition, srcView`stackLevel
      modifies asmView`lines, asmView`decorator, asmView`lastStopPosition
      ensures Valid()
      ensures ShowedFrame(frame, dbg)
    {
      TakeFrame(frame, dbg);
      TryLoadActiveContent(dbg);
    }

    /**
     * The first half of showing a frame, before anything is loaded: the
     * mode, the stack level, the stop positions and the pending contents.
     */
    method TakeFrame(frame: Frame, dbg: Debugger)
      requires Valid()
      modifies this`preferredMode, this`srcState, this`asmState
      modifies srcView`lastStopPosition, srcView`stackLevel, asmView`lastStopPosition
      ensures Valid()
      ensures preferredMode == FrameMode(old(preferredMode))
      ensures (srcState, asmState) == FrameStates(frame, dbg)
      ensures srcView.stackLevel == if dbg.stackLevel.Success? then Some(dbg.stackLevel.value) else None
      ensures srcView.lastStopPosition ==
        if frame.fullname.Some? && frame.line.Some? then Some(SrcPosition(frame.fullname.value, frame.line.value))
        else old(srcView.lastStopPosition)
      ensures asmView.lastStopPosition == if frame.addr.Some? then frame.addr else old(asmView.lastStopPosition)
    {
      if preferredMode.Message? {
        preferredMode := Source;
      }
      srcView.stackLevel := if dbg.stackLevel.Success? then Some(dbg.stackLevel.value) else None;
      srcState := SrcContentState.Unavailable;
      asmState := AsmContentState.Unavailable;
      if frame.fullname.Some? {
        var path := frame.fullname.value;
        srcState := NotYetLoaded(path);
        if frame.line.Some? {
          srcView.SetLastStopPosition(path, frame.line.value);
          asmState := NotYetLoadedFile(path, frame.line.value);
          if frame.addr.Some? {
            asmView.SetLastStopPosition(frame.addr.value);
          }
        }
      }
      if asmState == AsmContentState.Unavailable {
        if frame.addr.Some? {
          var address := frame.addr.value;
          var range := FrameRange(address, dbg);
          if range.Success? {
            asmState := NotYetLoadedAddr(range.value.0, range.value.1);
          }
          asmView.SetLastStopPosition(address);
        }
      }
    }

    /**
     * Steps one frame up or down the stack. The frame is selected only when
     * the level changes; then the selected frame is shown. A failed
     * exchange for the depth or the frame abandons the step quietly.
     * `selected` is the level whose selection was issued.
     */
    method TrySwitchStackframe(dbg: Debugger, up: bool) returns (r: Result<(), GDBResponseError>, selected: Option<nat>)
      requires Valid()
      modifies this`preferredMode, this`srcState, this`asmState
      modifies srcView`fileInfo, srcView`decorator, srcView`lastStopPosition, srcView`stackLevel
      modifies asmView`lines, asmView`decorator, asmView`lastStopPosition
      ensures Valid()
      ensures dbg.stackLevel.Failure? ==> r == Failure(dbg.stackLevel.error) && selected == None
      ensures up && dbg.stackLevel.Success? && dbg.stackDepth.Some? && dbg.stackDepth.value.Failure? ==>
        r == Failure(dbg.stackDepth.value.error)
      ensures selected.Some? <==>
        dbg.stackLevel.Success? && StepTarget(dbg.stackLevel.value, up, dbg.stackDepth).Some?
        && StepTarget(dbg.stackLevel.value, up, dbg.stackDepth).value != dbg.stackLevel.value
      ensures selected.Some? ==> selected == StepTarget(dbg.stackLevel.value, up, dbg.stackDepth)
      ensures selected.Some? && dbg.frameAt(selected.value).Some? ==>
        var reply := dbg.frameAt(selected.value).value;
        (reply.resultClass != Done ==>
           r == Failure(Other("Unexpected result class: " + ResultClassName(reply.resultClass))))
        && (reply.resultClass == Done && reply.frame.None? ==> r == Failure(MissingField("frame")))
        && (reply.resultClass == Done && reply.frame.Some? ==> r.Success? && ShowedFrame(reply.frame.value, dbg))
      ensures !(selected.Some? && dbg.frameAt(selected.value).Some?
                && dbg.frameAt(selected.value).value.resultClass == Done
                && dbg.frameAt(selected.value).value.frame.Some?) ==>
        unchanged(this, srcView, asmView)
      ensures selected.Some? && dbg.frameAt(selected.value).None? ==> r.Success?
      ensures dbg.stackLevel.Success? && selected.None? && !(up && dbg.stackDepth.Some? && dbg.stackDepth.value.Failure?) ==>
        r.Success?
    {
      selected := None;
      if dbg.stackLevel.Failure? {
        return Failure(dbg.stackLevel.error), None;
      }
      var level := dbg.stackLevel.value;
      var newLevel: nat;
      if up {
        if dbg.stackDepth.None? {
          return Success(()), None;
        }
        var depth := dbg.stackDepth.value;
        if depth.Failure? {
          return Failure(depth.error), None;
        }
        newLevel := NewLevel(level, true, depth.value);
      } else {
        newLevel := NewLevel(level, false, 0);
      }
      if level != newLevel {
        selected := Some(newLevel);
        var reply := dbg.frameAt(newLevel);
        if reply.Some? {
          var o := reply.value;
          if o.resultClass == Done {
            if o.frame.Some? {
              ShowFrame(o.frame.value, dbg);
            } else {
              return Failure(MissingField("frame")), selected;
            }
          } else {
            return Failure(Other("Unexpected result class: " + ResultClassName(o.resultClass))), selected;
          }
        }
      }
      return Success(()), selected;
    }

    /**
     * After breakpoints change, rebuilds the decorators of both views from
     * the current breakpoints.
     */
    method UpdateAfterEvent(bps: seq<BreakPoint>)
      requires Valid()
      modifies asmView`decorator, srcView`decorator
      ensures Valid()
      ensures (asmView.lines, asmView.decorator) == asmView.AfterShowing(asmView.lines, bps)
      ensures srcView.fileInfo.Some? ==>
        srcView.decorator == Some(NewSourceDecorator(srcView.fileInfo.value,
                                                     srcView.LastLineNumberFor(srcView.fileInfo.value), bps))
    {
      asmView.UpdateDecoration(bps);
      srcView.UpdateDecoration(bps);
    }
  }
}
