/**
 * The data behind the source and assembly views of the debugger front end:
 * source positions, breakpoints, disassembled lines, the decorators that
 * pick out which lines carry a breakpoint or the stop marker, and the
 * construction of sorted instruction lists from the debugger's
 * disassembly replies.
 *
 * The debugger itself is an oracle: a `Debugger` value fixes, for this
 * model, what every query would answer. The replies are given already
 * split into the fields the code reads; a field that is absent or of the
 * wrong type is `None`.
 */
module CodeViewData {
  import opened Basics
  import opened Decimal

  type Path = seq<char>
  type Address = nat

  /** A line of a source file; line numbers count from 1. */
  datatype SrcPosition = SrcPosition(file: Path, line: nat)

  datatype BreakPoint = BreakPoint(
    number: nat,
    enabled: bool,
    address: Option<Address>,
    srcPos: Option<SrcPosition>)

  /** The function an instruction belongs to and its byte offset in it. */
  datatype AssemblyDebugLocation = AssemblyDebugLocation(funcName: seq<char>, offset: nat)

  /** One line of the assembly view. */
  datatype AssemblyLine = AssemblyLine(
    content: seq<char>,
    address: Address,
    srcPosition: Option<SrcPosition>,
    debugLocation: Option<AssemblyDebugLocation>)

  // ---------------------------------------------------------------------
  // Decorators

  /** The marks of the assembly view: the stop position and the breakpoint addresses. */
  datatype AssemblyDecorator = AssemblyDecorator(stopPosition: Option<Address>, breakpointAddresses: set<Address>)

  /** The marks of the source view: the stop line and the breakpoint lines. */
  datatype SourceDecorator = SourceDecorator(stopPosition: Option<nat>, breakpointLines: set<nat>)

  /** Breakpoint `b` marks address `a` of the half-open range [start, end). */
  predicate MarksAddress(b: BreakPoint, start: Address, end: Address, a: Address) {
    b.enabled && b.address == Some(a) && start <= a < end
  }

  /** Breakpoint `b` marks line `n` of `file`. */
  predicate MarksLine(b: BreakPoint, file: Path, n: nat) {
    b.enabled && b.srcPos == Some(SrcPosition(file, n))
  }

  function MarkedAddresses(start: Address, end: Address, bps: seq<BreakPoint>): (r: set<Address>)
    ensures forall a :: a in r <==> exists b :: b in bps && MarksAddress(b, start, end, a)
  {
    if bps == [] then {}
    else
      var b := bps[0];
      var rest := MarkedAddresses(start, end, bps[1..]);
      assert forall x :: x in bps <==> x == b || x in bps[1..];
      if b.enabled && b.address.Some? && start <= b.address.value < end then
        assert MarksAddress(b, start, end, b.address.value);
        rest + {b.address.value}
      else
        assert forall a :: !MarksAddress(b, start, end, a);
        rest
  }

  function MarkedLines(file: Path, bps: seq<BreakPoint>): (r: set<nat>)
    ensures forall n :: n in r <==> exists b :: b in bps && MarksLine(b, file, n)
  {
    if bps == [] then {}
    else
      var b := bps[0];
      var rest := MarkedLines(file, bps[1..]);
      assert forall x :: x in bps <==> x == b || x in bps[1..];
      if b.enabled && b.srcPos.Some? && b.srcPos.value.file == file then
        assert MarksLine(b, file, b.srcPos.value.line);
        rest + {b.srcPos.value.line}
      else
        assert forall n :: !MarksLine(b, file, n);
        rest
  }

  /**
   * The decorator for the assembly lines with addresses in [start, end):
   * exactly the addresses of enabled breakpoints in the range, and the stop
   * position only when it lies in the range.
   */
  function NewAssemblyDecorator(start: Address, end: Address, stop: Option<Address>, bps: seq<BreakPoint>)
    : (d: AssemblyDecorator)
    ensures forall a :: a in d.breakpointAddresses <==> exists b :: b in bps && MarksAddress(b, start, end, a)
    ensures d.stopPosition.Some? <==> stop.Some? && start <= stop.value < end
    ensures d.stopPosition.Some? ==> d.stopPosition == stop
  {
    var kept := if stop.Some? && start <= stop.value && stop.value < end then stop else None;
    AssemblyDecorator(kept, MarkedAddresses(start, end, bps))
  }

  /**
   * The decorator for the shown source file: exactly the lines of enabled
   * breakpoints set in that file, and the given stop line.
   */
  function NewSourceDecorator(file: Path, stop: Option<nat>, bps: seq<BreakPoint>): (d: SourceDecorator)
    ensures forall n :: n in d.breakpointLines <==> exists b :: b in bps && MarksLine(b, file, n)
    ensures d.stopPosition == stop
  {
    SourceDecorator(stop, MarkedLines(file, bps))
  }

  // ---------------------------------------------------------------------
  // Stable sorting by a key

  predicate SortedBy<T>(s: seq<T>, key: T -> nat) {
    forall i, j :: 0 <= i < j < |s| ==> key(s[i]) <= key(s[j])
  }

  /** Puts `x` after every element whose key is not larger than its own. */
  function InsertBy<T>(s: seq<T>, x: T, key: T -> nat): (r: seq<T>)
    ensures |r| == |s| + 1
    decreases |s|
  {
    if s == [] || key(s[|s| - 1]) <= key(x) then s + [x]
    else InsertBy(s[..|s| - 1], x, key) + [s[|s| - 1]]
  }

  /** A stable sort by `key`, as the standard library's `sort_by_key`. */
  function SortBy<T>(xs: seq<T>, key: T -> nat): (r: seq<T>)
    ensures |r| == |xs|
    decreases |xs|
  {
    if xs == [] then [] else InsertBy(SortBy(xs[..|xs| - 1], key), xs[|xs| - 1], key)
  }

  /** The elements of `s` whose key is `k`, in their order in `s`. */
  function WithKey<T>(s: seq<T>, key: T -> nat, k: nat): seq<T>
    decreases |s|
  {
    if s == [] then []
    else WithKey(s[..|s| - 1], key, k) + (if key(s[|s| - 1]) == k then [s[|s| - 1]] else [])
  }

  lemma WithKeyOne<T>(x: T, key: T -> nat, k: nat)
    ensures WithKey([x], key, k) == if key(x) == k then [x] else []
  {
    assert [x][..0] == [];
  }

  lemma {:induction false} WithKeyAppend<T>(a: seq<T>, b: seq<T>, key: T -> nat, k: nat)
    ensures WithKey(a + b, key, k) == WithKey(a, key, k) + WithKey(b, key, k)
    decreases |b|
  {
    if b == [] {
      assert a + b == a;
    } else {
      var init := b[..|b| - 1];
      assert (a + b)[..|a + b| - 1] == a + init;
      assert (a + b)[|a + b| - 1] == b[|b| - 1];
      WithKeyAppend(a, init, key, k);
    }
  }

  lemma {:induction false} InsertByPermutes<T>(s: seq<T>, x: T, key: T -> nat)
    ensures multiset(InsertBy(s, x, key)) == multiset(s) + multiset{x}
    decreases |s|
  {
    if !(s == [] || key(s[|s| - 1]) <= key(x)) {
      assert s == s[..|s| - 1] + [s[|s| - 1]];
      InsertByPermutes(s[..|s| - 1], x, key);
    }
  }

  lemma {:induction false} InsertBySorted<T>(s: seq<T>, x: T, key: T -> nat)
    requires SortedBy(s, key)
    ensures SortedBy(InsertBy(s, x, key), key)
    decreases |s|
  {
    if !(s == [] || key(s[|s| - 1]) <= key(x)) {
      var init := s[..|s| - 1];
      var last := s[|s| - 1];
      InsertBySorted(init, x, key);
      InsertByPermutes(init, x, key);
      var r := InsertBy(init, x, key);
      forall i | 0 <= i < |r| ensures key(r[i]) <= key(last) {
        assert r[i] in multiset(r);
        if r[i] != x {
          assert r[i] in multiset(init);
          var j :| 0 <= j < |init| && init[j] == r[i];
          assert s[j] == init[j];
        }
      }
    }
  }

  lemma {:induction false} InsertByStable<T>(s: seq<T>, x: T, key: T -> nat, k: nat)
    requires SortedBy(s, key)
    ensures WithKey(InsertBy(s, x, key), key, k) == WithKey(s, key, k) + WithKey([x], key, k)
    decreases |s|
  {
    if s == [] || key(s[|s| - 1]) <= key(x) {
      WithKeyAppend(s, [x], key, k);
    } else {
      var init := s[..|s| - 1];
      var last := s[|s| - 1];
      assert s == init + [last];
      assert InsertBy(s, x, key) == InsertBy(init, x, key) + [last];
      InsertByStable(init, x, key, k);
      WithKeyAppend(InsertBy(init, x, key), [last], key, k);
      WithKeyAppend(init, [last], key, k);
      WithKeyOne(x, key, k);
      WithKeyOne(last, key, k);
      // `x` and `last` have different keys, so at most one of them is kept.
      assert WithKey([x], key, k) == [] || WithKey([last], key, k) == [];
      SwapEmpty(WithKey(init, key, k), WithKey([x], key, k), WithKey([last], key, k));
    }
  }

  lemma SwapEmpty<T>(a: seq<T>, b: seq<T>, c: seq<T>)
    requires b == [] || c == []
    ensures a + b + c == a + c + b
  {
    if b == [] {
      assert a + b == a;
      assert a + c + b == a + c;
    } else {
      assert a + b + c == a + b;
      assert a + c == a;
    }
  }

  /**
   * `SortBy` orders by key, keeps every element (a permutation), and keeps
   * elements with equal keys in their input order (stability).
   */
  lemma {:induction false} SortByFacts<T>(xs: seq<T>, key: T -> nat)
    ensures SortedBy(SortBy(xs, key), key)
    ensures multiset(SortBy(xs, key)) == multiset(xs)
    ensures forall k :: WithKey(SortBy(xs, key), key, k) == WithKey(xs, key, k)
    decreases |xs|
  {
    if xs != [] {
      var init := xs[..|xs| - 1];
      var x := xs[|xs| - 1];
      assert xs == init + [x];
      SortByFacts(init, key);
      InsertBySorted(SortBy(init, key), x, key);
      InsertByPermutes(SortBy(init, key), x, key);
      forall k ensures WithKey(SortBy(xs, key), key, k) == WithKey(xs, key, k) {
        InsertByStable(SortBy(init, key), x, key, k);
        WithKeyAppend(init, [x], key, k);
      }
    }
  }

  // ---------------------------------------------------------------------
  // Disassembly replies

  datatype ExecuteError = Busy | Quit

  /** Result classes of a debugger reply. */
  datatype ResultClass = Done | Running | Connected | Error | Exit

  /**
   * Errors of a debugger reply. `FieldError` stands for whatever the field
   * readers report for an absent or ill-typed field.
   */
  datatype GDBResponseError =
    | MissingField(field: seq<char>)
    | FieldError(field: seq<char>)
    | Execution(cause: ExecuteError)
    | Other(message: seq<char>)

  function ResultClassName(c: ResultClass): seq<char> {
    match c
    case Done => "Done"
    case Running => "Running"
    case Connected => "Connected"
    case Error => "Error"
    case Exit => "Exit"
  }

  datatype DisassembleError = GDB(error: GDBResponseError) | OtherError(message: seq<char>)

  /** One instruction entry of a disassembly reply. */
  datatype InsnRecord = InsnRecord(
    inst: Option<seq<char>>,
    address: Option<Address>,
    funcName: Option<seq<char>>,
    offset: Option<seq<char>>)

  /** One source-line entry of a mixed source and disassembly reply. */
  datatype SourceLineRecord = SourceLineRecord(
    line: Option<seq<char>>,
    fullname: Option<Path>,
    insns: seq<InsnRecord>)

  /** A reply to an address-range disassembly. */
  datatype DisassembleReply = DisassembleReply(
    resultClass: ResultClass,
    msg: Option<seq<char>>,
    asmInsns: Option<seq<InsnRecord>>)

  /** The function and offset of an instruction, when both fields are present and the offset is a number. */
  function DebugLocationOf(r: InsnRecord): (loc: Option<AssemblyDebugLocation>)
    ensures loc.Some? <==> r.funcName.Some? && r.offset.Some? && ParseDecimal(r.offset.value).Some?
    ensures loc.Some? ==> loc.value.funcName == r.funcName.value
                          && Some(loc.value.offset) == ParseDecimal(r.offset.value)
  {
    if r.funcName.Some? && r.offset.Some? then
      match ParseDecimal(r.offset.value)
      case Some(n) => Some(AssemblyDebugLocation(r.funcName.value, n))
      case None => None
    else None
  }

  /** The assembly line for one instruction entry, or the first field that is missing. */
  function InsnLine(r: InsnRecord, src: Option<SrcPosition>): (l: Result<AssemblyLine, GDBResponseError>)
    ensures l.Success? <==> r.inst.Some? && r.address.Some?
    ensures l.Failure? ==> l.error == if r.inst.None? then FieldError("inst") else FieldError("address")
    ensures l.Success? ==> l.value == AssemblyLine(r.inst.value, r.address.value, src, DebugLocationOf(r))
  {
    if r.inst.None? then Failure(FieldError("inst"))
    else if r.address.None? then Failure(FieldError("address"))
    else Success(AssemblyLine(r.inst.value, r.address.value, src, DebugLocationOf(r)))
  }

  /** The lines for a run of instruction entries, in order, stopping at the first bad entry. */
  function InsnLines(rs: seq<InsnRecord>, src: Option<SrcPosition>): (r: Result<seq<AssemblyLine>, GDBResponseError>)
    ensures r.Success? <==> forall k :: 0 <= k < |rs| ==> InsnLine(rs[k], src).Success?
    ensures r.Success? ==> |r.value| == |rs|
    decreases |rs|
  {
    if rs == [] then Success([])
    else
      assert forall k :: 0 <= k < |rs| - 1 ==> rs[..|rs| - 1][k] == rs[k];
      match InsnLines(rs[..|rs| - 1], src)
      case Failure(e) => Failure(e)
      case Success(ls) =>
        match InsnLine(rs[|rs| - 1], src)
        case Failure(e) => Failure(e)
        case Success(l) => Success(ls + [l])
  }

  /** The source position of a source-line entry: its line number must be a numeral. */
  function SourcePositionOf(r: SourceLineRecord): (p: Result<SrcPosition, GDBResponseError>)
    ensures p.Success? <==> r.line.Some? && ParseDecimal(r.line.value).Some? && r.fullname.Some?
    ensures p.Success? ==> p.value == SrcPosition(r.fullname.value, ParseDecimal(r.line.value).value)
    ensures r.line.None? ==> p == Failure(FieldError("line"))
    ensures r.line.Some? && ParseDecimal(r.line.value).None? ==> p == Failure(Other("Malformed line"))
  {
    if r.line.None? then Failure(FieldError("line"))
    else
      match ParseDecimal(r.line.value)
      case None => Failure(Other("Malformed line"))
      case Some(n) =>
        if r.fullname.None? then Failure(FieldError("fullname"))
        else Success(SrcPosition(r.fullname.value, n))
  }

  /** All lines of a mixed reply in reply order, each tagged with its source position. */
  function CollectedLines(objs: seq<SourceLineRecord>): (r: Result<seq<AssemblyLine>, GDBResponseError>)
    ensures r.Success? <==> forall k :: 0 <= k < |objs| ==>
      SourcePositionOf(objs[k]).Success? && InsnLines(objs[k].insns, Some(SourcePositionOf(objs[k]).value)).Success?
    decreases |objs|
  {
    if objs == [] then Success([])
    else
      assert forall k :: 0 <= k < |objs| - 1 ==> objs[..|objs| - 1][k] == objs[k];
      match CollectedLines(objs[..|objs| - 1])
      case Failure(e) => Failure(e)
      case Success(ls) =>
        var last := objs[|objs| - 1];
        match SourcePositionOf(last)
        case Failure(e) => Failure(e)
        case Success(pos) =>
          match InsnLines(last.insns, Some(pos))
          case Failure(e) => Failure(e)
          case Success(more) => Success(ls + more)
  }

  function LineAddress(l: AssemblyLine): nat {
    l.address
  }

  function RecordAddress(r: InsnRecord): nat {
    if r.address.Some? then r.address.value else 0
  }

  /**
   * The instruction lines of a mixed source and disassembly reply, sorted
   * by address. The loops visit the source-line entries and their
   * instructions in reply order; the first bad field ends the collection.
   */
  method GetInstructions(asmInsns: Option<seq<SourceLineRecord>>) returns (r: Result<seq<AssemblyLine>, GDBResponseError>)
    ensures asmInsns.None? ==> r == Failure(MissingField("asm_insns"))
    ensures asmInsns.Some? ==>
      r == match CollectedLines(asmInsns.value)
           case Success(ls) => Success(SortBy(ls, LineAddress))
           case Failure(e) => Failure(e)
  {
    if asmInsns.None? {
      return Failure(MissingField("asm_insns"));
    }
    var objs := asmInsns.value;
    var lines: seq<AssemblyLine> := [];
    var i := 0;
    while i < |objs|
      invariant 0 <= i <= |objs|
      invariant CollectedLines(objs[..i]) == Success(lines)
    {
      assert objs[..i + 1][..i] == objs[..i];
      var pos := SourcePositionOf(objs[i]);
      if pos.Failure? {
        CollectedLinesStop(objs, i + 1);
        return Failure(pos.error);
      }
      var src := Some(pos.value);
      var insns := objs[i].insns;
      var more: seq<AssemblyLine> := [];
      var j := 0;
      while j < |insns|
        invariant 0 <= j <= |insns|
        invariant InsnLines(insns[..j], src) == Success(more)
      {
        assert insns[..j + 1][..j] == insns[..j];
        var line := InsnLine(insns[j], src);
        if line.Failure? {
          InsnLinesStop(insns, src, j + 1);
          CollectedLinesStop(objs, i + 1);
          return Failure(line.error);
        }
        more := more + [line.value];
        j := j + 1;
      }
      assert insns[..j] == insns;
      lines := lines + more;
      i := i + 1;
    }
    assert objs[..i] == objs;
    r := Success(SortBy(lines, LineAddress));
  }

  /** A failure in the entries up to `n` is the failure of the whole collection. */
  lemma {:induction false} CollectedLinesStop(objs: seq<SourceLineRecord>, n: nat)
    requires n <= |objs| && CollectedLines(objs[..n]).Failure?
    ensures CollectedLines(objs) == CollectedLines(objs[..n])
    decreases |objs| - n
  {
    if n < |objs| {
      assert objs[..n + 1][..n] == objs[..n];
      CollectedLinesStop(objs, n + 1);
    } else {
      assert objs[..n] == objs;
    }
  }

  lemma {:induction false} InsnLinesStop(rs: seq<InsnRecord>, src: Option<SrcPosition>, n: nat)
    requires n <= |rs| && InsnLines(rs[..n], src).Failure?
    ensures InsnLines(rs, src) == InsnLines(rs[..n], src)
    decreases |rs| - n
  {
    if n < |rs| {
      assert rs[..n + 1][..n] == rs[..n];
      InsnLinesStop(rs, src, n + 1);
    } else {
      assert rs[..n] == rs;
    }
  }

  /**
   * A successful instruction list holds exactly the collected lines, sorted
   * by address, with lines at the same address in reply order.
   */
  lemma InstructionsSorted(objs: seq<SourceLineRecord>)
    requires CollectedLines(objs).Success?
    ensures var sorted := SortBy(CollectedLines(objs).value, LineAddress);
      SortedBy(sorted, LineAddress)
      && multiset(sorted) == multiset(CollectedLines(objs).value)
      && forall a :: WithKey(sorted, LineAddress, a) == WithKey(CollectedLines(objs).value, LineAddress, a)
  {
    SortByFacts(CollectedLines(objs).value, LineAddress);
  }

  predicate AllAddressed(rs: seq<InsnRecord>) {
    forall k :: 0 <= k < |rs| ==> rs[k].address.Some?
  }

  /**
   * Disassembles an address range: an error reply gives its message (or
   * "unknown"), a failed exchange its execution error; otherwise every
   * entry must carry an address, and the entries come back sorted by it.
   */
  function DisassembleAddress(reply: Result<DisassembleReply, ExecuteError>): (r: Result<seq<InsnRecord>, DisassembleError>)
    ensures reply.Failure? ==> r == Failure(GDB(Execution(reply.error)))
    ensures reply.Success? && reply.value.resultClass == Error ==>
      r == Failure(OtherError(if reply.value.msg.Some? then reply.value.msg.value else "unknown"))
    ensures r.Success? <==>
      reply.Success? && reply.value.resultClass != Error && reply.value.asmInsns.Some? && AllAddressed(reply.value.asmInsns.value)
    ensures r.Success? ==>
      AllAddressed(r.value) && SortedBy(r.value, RecordAddress)
      && multiset(r.value) == multiset(reply.value.asmInsns.value)
  {
    match reply
    case Failure(e) => Failure(GDB(Execution(e)))
    case Success(o) =>
      if o.resultClass == Error then
        Failure(OtherError(if o.msg.Some? then o.msg.value else "unknown"))
      else if o.asmInsns.None? then
        Failure(GDB(MissingField("asm_insns")))
      else if !AllAddressed(o.asmInsns.value) then
        Failure(GDB(FieldError("address")))
      else
        var sorted := SortBy(o.asmInsns.value, RecordAddress);
        SortByFacts(o.asmInsns.value, RecordAddress);
        assert forall k :: 0 <= k < |sorted| ==> sorted[k] in multiset(o.asmInsns.value);
        Success(sorted)
  }

  /**
   * A range of valid addresses starting at `at`: from `at` to the address
   * of the penultimate instruction of a block disassembled from there.
   */
  function FindValidAddressRange(at: Address, reply: Result<DisassembleReply, ExecuteError>)
    : (r: Result<(Address, Address), DisassembleError>)
    ensures DisassembleAddress(reply).Failure? ==> r == Failure(DisassembleAddress(reply).error)
    ensures DisassembleAddress(reply).Success? && |DisassembleAddress(reply).value| < 2 ==>
      r == Failure(OtherError("Not enough lines"))
    ensures r.Success? <==> DisassembleAddress(reply).Success? && |DisassembleAddress(reply).value| >= 2
    ensures r.Success? ==>
      var block := DisassembleAddress(reply).value;
      r.value == (at, block[|block| - 2].address.value)
  {
    match DisassembleAddress(reply)
    case Failure(e) => Failure(e)
    case Success(block) =>
      if |block| < 2 then Failure(OtherError("Not enough lines"))
      else
        var penultimate := block[|block| - 2];
        if penultimate.address.None? then Failure(GDB(FieldError("address")))
        else Success((at, penultimate.address.value))
  }

  /** The lines of an address-range disassembly, in the order of the sorted reply. */
  method AddressLines(rs: seq<InsnRecord>) returns (r: Result<seq<AssemblyLine>, GDBResponseError>)
    ensures r == InsnLines(rs, None)
  {
    var lines: seq<AssemblyLine> := [];
    var j := 0;
    while j < |rs|
      invariant 0 <= j <= |rs|
      invariant InsnLines(rs[..j], None) == Success(lines)
    {
      assert rs[..j + 1][..j] == rs[..j];
      var line := InsnLine(rs[j], None);
      if line.Failure? {
        InsnLinesStop(rs, None, j + 1);
        return Failure(line.error);
      }
      lines := lines + [line.value];
      j := j + 1;
    }
    assert rs[..j] == rs;
    return Success(lines);
  }

  /** Lines built from entries that all have an address keep those addresses, in order. */
  lemma {:induction false} InsnLinesAddresses(rs: seq<InsnRecord>, src: Option<SrcPosition>)
    requires InsnLines(rs, src).Success?
    ensures |InsnLines(rs, src).value| == |rs|
    ensures forall k :: 0 <= k < |rs| ==> InsnLines(rs, src).value[k].address == RecordAddress(rs[k])
    decreases |rs|
  {
    if rs != [] {
      InsnLinesAddresses(rs[..|rs| - 1], src);
    }
  }

  /**
   * Each built line is the line of its entry, and a failure is the error of
   * the first entry that has no line.
   */
  lemma {:induction false} InsnLinesEntries(rs: seq<InsnRecord>, src: Option<SrcPosition>)
    ensures InsnLines(rs, src).Success? ==>
      forall k :: 0 <= k < |rs| ==> InsnLines(rs, src).value[k] == InsnLine(rs[k], src).value
    ensures InsnLines(rs, src).Failure? ==>
      exists k :: 0 <= k < |rs| && InsnLine(rs[k], src) == Failure(InsnLines(rs, src).error)
        && forall j :: 0 <= j < k ==> InsnLine(rs[j], src).Success?
    decreases |rs|
  {
    if rs != [] {
      var init := rs[..|rs| - 1];
      InsnLinesEntries(init, src);
      assert forall k :: 0 <= k < |init| ==> init[k] == rs[k];
      if InsnLines(init, src).Failure? {
        var k :| 0 <= k < |init| && InsnLine(init[k], src) == Failure(InsnLines(init, src).error)
          && forall j :: 0 <= j < k ==> InsnLine(init[j], src).Success?;
        assert InsnLine(rs[k], src) == Failure(InsnLines(rs, src).error);
      } else if InsnLines(rs, src).Failure? {
        assert InsnLine(rs[|rs| - 1], src) == Failure(InsnLines(rs, src).error);
      }
    }
  }

  // ---------------------------------------------------------------------
  // The debugger as an oracle

  /** The fields of a stack frame the views read. */
  datatype Frame = Frame(fullname: Option<Path>, line: Option<nat>, addr: Option<Address>)

  /** A reply to a frame query: its result class and its frame, if it has one. */
  datatype FrameReply = FrameReply(resultClass: ResultClass, frame: Option<Frame>)

  /**
   * What the debugger and the file system would answer, fixed for one
   * model run: the breakpoints, whether a source file opens and whether it
   * changed on disk since it was loaded, the replies to disassembly
   * requests (a failed exchange is an `ExecuteError`; a reply is given by
   * its `asm_insns` entries), the range of the function around an address
   * when one is found, the current stack level, the reply to the
   * stack-depth query (`None` when the exchange fails) and the reply to
   * the frame query after a level is selected (`None` when the exchange
   * fails).
   */
  datatype Debugger = Debugger(
    breakpoints: seq<BreakPoint>,
    canOpen: Path -> bool,
    modifiedSinceLoad: Path -> bool,
    disassembleFile: (Path, nat) -> Result<Option<seq<SourceLineRecord>>, ExecuteError>,
    disassembleAddress: (Address, Address) -> Result<DisassembleReply, ExecuteError>,
    functionRange: Address -> Option<(Address, Address)>,
    stackLevel: Result<nat, GDBResponseError>,
    stackDepth: Option<Result<nat, GDBResponseError>>,
    frameAt: nat -> Option<FrameReply>)

  /** The assembly lines shown for a source file and line, sorted by address. */
  function ShowFileLines(path: Path, line: nat, dbg: Debugger): (r: Result<seq<AssemblyLine>, DisassembleError>)
    ensures dbg.disassembleFile(path, line).Failure? ==>
      r == Failure(GDB(Execution(dbg.disassembleFile(path, line).error)))
    ensures r.Success? <==>
      dbg.disassembleFile(path, line).Success? && dbg.disassembleFile(path, line).value.Some?
      && CollectedLines(dbg.disassembleFile(path, line).value.value).Success?
    ensures r.Success? ==> SortedBy(r.value, LineAddress)
  {
    match dbg.disassembleFile(path, line)
    case Failure(e) => Failure(GDB(Execution(e)))
    case Success(insns) =>
      if insns.None? then Failure(GDB(MissingField("asm_insns")))
      else
        match CollectedLines(insns.value)
        case Failure(e) => Failure(GDB(e))
        case Success(ls) =>
          SortByFacts(ls, LineAddress);
          Success(SortBy(ls, LineAddress))
  }

  /** The assembly lines shown for an address range, sorted by address. */
  function ShowAddressLines(begin: Address, end: Address, dbg: Debugger)
    : (r: Result<seq<AssemblyLine>, DisassembleError>)
    ensures DisassembleAddress(dbg.disassembleAddress(begin, end)).Failure? ==>
      r == Failure(DisassembleAddress(dbg.disassembleAddress(begin, end)).error)
    ensures r.Success? ==> SortedBy(r.value, LineAddress)
  {
    match DisassembleAddress(dbg.disassembleAddress(begin, end))
    case Failure(e) => Failure(e)
    case Success(rs) =>
      match InsnLines(rs, None)
      case Failure(e) => Failure(GDB(e))
      case Success(ls) =>
        InsnLinesAddresses(rs, None);
        assert forall i, j :: 0 <= i < j < |ls| ==> RecordAddress(rs[i]) <= RecordAddress(rs[j]);
        Success(ls)
  }

  /** The lines shown for a file are its collected lines, reordered. */
  lemma ShowFileLinesPermutes(path: Path, line: nat, dbg: Debugger)
    requires ShowFileLines(path, line, dbg).Success?
    ensures multiset(ShowFileLines(path, line, dbg).value)
         == multiset(CollectedLines(dbg.disassembleFile(path, line).value.value).value)
  {
    SortByFacts(CollectedLines(dbg.disassembleFile(path, line).value.value).value, LineAddress);
  }

  /** The lines shown for an address range follow the sorted reply entry by entry. */
  lemma ShowAddressLinesFollowReply(begin: Address, end: Address, dbg: Debugger)
    requires ShowAddressLines(begin, end, dbg).Success?
    ensures var rs := DisassembleAddress(dbg.disassembleAddress(begin, end)).value;
      var ls := ShowAddressLines(begin, end, dbg).value;
      |ls| == |rs| && forall k :: 0 <= k < |rs| ==> ls[k].address == rs[k].address.value
  {
    InsnLinesAddresses(DisassembleAddress(dbg.disassembleAddress(begin, end)).value, None);
  }

  // ---------------------------------------------------------------------
  // The address range a decorator is built for

  /** The range of the shown lines: from the first line's address to one past the last line's. */
  function ShownAddressRange(lines: seq<AssemblyLine>): (r: (Address, Address))
    requires |lines| > 0
    ensures r.0 == lines[0].address && r.1 == lines[|lines| - 1].address + 1
  {
    (lines[0].address, lines[|lines| - 1].address + 1)
  }

  /**
   * The range the decoration refresh builds its decorator for, as written:
   * it ends at the last line's address itself, so that address is outside.
   */
  function RefreshAddressRangeAsWritten(lines: seq<AssemblyLine>): (r: (Address, Address))
    requires |lines| > 0
    ensures r.0 == lines[0].address && r.1 == lines[|lines| - 1].address
  {
    (lines[0].address, lines[|lines| - 1].address)
  }

  /**
   * For sorted lines, the shown range holds every line's address, so every
   * enabled breakpoint at a shown line, and a stop position at a shown line,
   * are marked.
   */
  lemma ShownRangeMarksEveryLine(lines: seq<AssemblyLine>, stop: Option<Address>, bps: seq<BreakPoint>, k: nat)
    requires |lines| > 0 && SortedBy(lines, LineAddress) && k < |lines|
    ensures var (start, end) := ShownAddressRange(lines);
      var d := NewAssemblyDecorator(start, end, stop, bps);
      (forall b :: b in bps && b.enabled && b.address == Some(lines[k].address) ==>
         lines[k].address in d.breakpointAddresses)
      && (stop == Some(lines[k].address) ==> d.stopPosition == stop)
  {
    var (start, end) := ShownAddressRange(lines);
    assert LineAddress(lines[0]) <= LineAddress(lines[k]) <= LineAddress(lines[|lines| - 1]);
    assert forall b :: b in bps && b.enabled && b.address == Some(lines[k].address) ==>
      MarksAddress(b, start, end, lines[k].address);
  }

  /**
   * The refresh as written loses the marks of the last line: two lines at
   * 0x10 and 0x14 with an enabled breakpoint and the stop position at 0x14
   * are marked when shown, and unmarked after a refresh.
   */
  lemma RefreshAsWrittenDropsLastLine()
    ensures var lines := [AssemblyLine("nop", 0x10, None, None), AssemblyLine("ret", 0x14, None, None)];
      var bps := [BreakPoint(1, true, Some(0x14), None)];
      var shown := ShownAddressRange(lines);
      var refreshed := RefreshAddressRangeAsWritten(lines);
      var before := NewAssemblyDecorator(shown.0, shown.1, Some(0x14), bps);
      var after := NewAssemblyDecorator(refreshed.0, refreshed.1, Some(0x14), bps);
      0x14 in before.breakpointAddresses && before.stopPosition == Some(0x14)
      && 0x14 !in after.breakpointAddresses && after.stopPosition == None
  {
    var bps := [BreakPoint(1, true, Some(0x14), None)];
    assert MarksAddress(bps[0], 0x10, 0x15, 0x14);
  }
}
