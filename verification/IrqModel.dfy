/** Interrupt routing of kernel/dev/ioapic.c and kernel/cpu/tables/idt.c on values: from a line to its handler. */
module IrqModel {
  import opened Words

  const IOAPIC_ID := 0x0
  const IOAPIC_VER := 0x1
  const IOAPIC_REDTBL := 0x10
  const MASKED := 0x1_0000
  const LAST_PIN := 119
  const LINES := 16

  /** A handler's address; 0 is NULL. */
  type Handler = Word

  /** One I/O APIC of the MADT and its registers, indexed by the 8-bit number written to IOREGSEL. */
  datatype IoApic = IoApic(id: Byte, gsiBase: Word, regs: seq<Word>)

  /** An interrupt source override of the MADT. */
  datatype Override = Override(irq: Byte, gsi: Word, flags: nat)

  /** `ioapic_enabled`, the controllers and `irq_handlers`. */
  datatype Irq = Irq(enabled: bool, apics: seq<IoApic>, handlers: seq<Handler>)

  predicate Shaped(s: Irq) {
    |s.handlers| == 256 && forall i :: 0 <= i < |s.apics| ==> |s.apics[i].regs| == 256
  }

  // ---------- I/O APIC ----------

  /** `ioapic_gsi_count`: the index of the controller's last entry. */
  function GsiCount(a: IoApic): nat
    requires |a.regs| == 256
  {
    a.regs[IOAPIC_VER] / 0x1_0000 % 256
  }

  /** It is the third byte of the version register. */
  lemma GsiCountMeaning(a: IoApic, high: nat, n: nat, low: nat)
    requires |a.regs| == 256 && a.regs[1] == high * 0x100_0000 + n * 0x1_0000 + low && n < 256 && low < 0x1_0000
    ensures GsiCount(a) == n
  {
    DivisionIs(a.regs[1], 0x1_0000, high * 256 + n, low);
    DivisionIs(high * 256 + n, 256, high, n);
  }

  /** The test of `ioapic_get_gsi`. */
  predicate Serves(a: IoApic, gsi: Word)
    requires |a.regs| == 256
  {
    a.gsiBase <= gsi < a.gsiBase + GsiCount(a)
  }

  /** `ioapic_get_gsi`: the first controller that covers the interrupt, or the list's length for NULL. */
  function GetGsi(apics: seq<IoApic>, gsi: Word): (n: nat)
    requires forall i :: 0 <= i < |apics| ==> |apics[i].regs| == 256
    ensures n <= |apics| && (n < |apics| ==> Serves(apics[n], gsi))
    ensures forall i :: 0 <= i < n ==> !Serves(apics[i], gsi)
  {
    if apics == [] || Serves(apics[0], gsi) then 0 else 1 + GetGsi(apics[1..], gsi)
  }

  /** No controller is ever found for its own last pin, so that pin is served only where another one covers it. */
  lemma LastPinNotFound(apics: seq<IoApic>, n: nat, gsi: Word)
    requires forall i :: 0 <= i < |apics| ==> |apics[i].regs| == 256
    requires n < |apics| && gsi == apics[n].gsiBase + GsiCount(apics[n])
    ensures GetGsi(apics, gsi) != n
    ensures GetGsi(apics, gsi) == |apics| <==> forall i :: 0 <= i < |apics| && i != n ==> !Serves(apics[i], gsi)
  {
  }

  /** The register `ioapic_write` is given, cut to eight bits. */
  function RedirectionRegister(offset: nat): nat { (offset * 2 + IOAPIC_REDTBL) % 256 }

  /** The cut is harmless exactly for the first 120 pins. */
  lemma RegisterExactIff(offset: nat)
    ensures RedirectionRegister(offset) == offset * 2 + 16 <==> offset <= 119
    ensures offset <= LAST_PIN <==> offset <= 119
  {
  }

  /** The low word of a redirection entry. */
  function RedirectLow(vector: Byte, flags: nat, mask: bool): Word {
    vector + (if flags / 2 % 2 == 1 then 0x2000 else 0) + (if flags / 8 % 2 == 1 then 0x8000 else 0)
    + (if mask then MASKED else 0)
  }

  /** The bits of the low word: the vector, polarity and trigger mode from the override's flags, and the mask. */
  lemma RedirectBits(vector: Byte, flags: nat, mask: bool)
    ensures var e := RedirectLow(vector, flags, mask);
      && e % 256 == vector && e / 0x100 % 32 == 0
      && (e / 0x2000 % 2 == 1 <==> flags / 2 % 2 == 1) && e / 0x4000 % 2 == 0
      && (e / 0x8000 % 2 == 1 <==> flags / 8 % 2 == 1)
      && (e / 0x1_0000 == if mask then 1 else 0)
  {
  }

  /** The high word: the destination field. */
  function RedirectHigh(lapicId: Word): Word { lapicId % 256 * 0x100_0000 }

  lemma DestinationBits(lapicId: Word)
    ensures RedirectHigh(lapicId) / 0x100_0000 == lapicId % 256 && RedirectHigh(lapicId) % 0x100_0000 == 0
  {
    DivisionIs(RedirectHigh(lapicId), 0x100_0000, lapicId % 256, 0);
  }

  function WriteRegs(a: IoApic, offset: nat, low: Word, high: Word): IoApic
    requires |a.regs| == 256
  {
    a.(regs := a.regs[RedirectionRegister(offset) := low][(RedirectionRegister(offset) + 1) % 256 := high])
  }

  /** `ioapic_redirect_gsi`. */
  function RedirectGsi(apics: seq<IoApic>, lapicId: Word, vector: Byte, gsi: Word, flags: nat, mask: bool): seq<IoApic>
    requires forall i :: 0 <= i < |apics| ==> |apics[i].regs| == 256
    requires GetGsi(apics, gsi) < |apics|
  {
    var n := GetGsi(apics, gsi);
    apics[n := WriteRegs(apics[n], gsi - apics[n].gsiBase, RedirectLow(vector, flags, mask), RedirectHigh(lapicId))]
  }

  /** The first override for a line, or the line itself (section 5.2.12.5 of the ACPI Specification). */
  function Effective(isos: seq<Override>, irq: Byte): (Word, nat) {
    if isos == [] then (irq, 0)
    else if isos[0].irq == irq then (isos[0].gsi, isos[0].flags)
    else Effective(isos[1..], irq)
  }

  /** The first override that names the line decides, and without one the line stands for itself. */
  lemma {:induction false} EffectiveIsFirst(isos: seq<Override>, irq: Byte, i: nat)
    requires i <= |isos| && forall j :: 0 <= j < i ==> isos[j].irq != irq
    ensures i == |isos| ==> Effective(isos, irq) == (irq, 0)
    ensures i < |isos| && isos[i].irq == irq ==> Effective(isos, irq) == (isos[i].gsi, isos[i].flags)
    decreases |isos|
  {
    if i > 0 {
      assert forall j :: 0 <= j < |isos| - 1 ==> isos[1..][j] == isos[j + 1];
      EffectiveIsFirst(isos[1..], irq, i - 1);
    }
  }

  // ---------- registration and dispatch ----------

  datatype Call = Register(line: Byte, handler: Handler) | Unregister(line: Byte)

  /** A line whose interrupt some controller covers at one of its first 120 pins. */
  predicate Routable(apics: seq<IoApic>, isos: seq<Override>, line: Byte)
    requires forall i :: 0 <= i < |apics| ==> |apics[i].regs| == 256
  {
    var gsi := Effective(isos, line).0;
    var n := GetGsi(apics, gsi);
    n < |apics| && gsi - apics[n].gsiBase <= LAST_PIN
  }

  ghost predicate AllRoutable(apics: seq<IoApic>, isos: seq<Override>, lines: set<Byte>) {
    && (forall i :: 0 <= i < |apics| ==> |apics[i].regs| == 256)
    && (forall line :: line in lines ==> line < LINES && Routable(apics, isos, line))
  }

  /** No two of these lines have the same interrupt. */
  ghost predicate Distinct(isos: seq<Override>, lines: set<Byte>) {
    forall i, j :: i in lines && j in lines && i != j ==> Effective(isos, i).0 != Effective(isos, j).0
  }

  /** The lines below 16 that the calls register are among these. */
  predicate UsesOnly(calls: seq<Call>, lines: set<Byte>) {
    forall i :: 0 <= i < |calls| && calls[i].Register? && calls[i].line < LINES ==> calls[i].line in lines
  }

  /** `irq_register` and `irq_unregister`. */
  function Apply(s: Irq, isos: seq<Override>, call: Call): Irq
    requires Shaped(s) && (s.enabled && call.Register? && call.line < LINES ==> Routable(s.apics, isos, call.line))
  {
    match call
    case Unregister(line) => s.(handlers := s.handlers[line := 0])
    case Register(line, handler) =>
      var apics :=
        if s.enabled && line < LINES then
          var (gsi, flags) := Effective(isos, line);
          RedirectGsi(s.apics, 0, line + 32, gsi, flags, false)
        else s.apics;
      s.(apics := apics, handlers := s.handlers[line := handler])
  }

  /** `irq_handler`: the handler for an interrupt vector, NULL if there is none. */
  function Dispatch(s: Irq, vector: Byte): Handler
    requires Shaped(s) && 32 <= vector
  {
    s.handlers[vector - 32]
  }

  /** Where line's redirection entry is: a controller and a register. */
  function Slot(apics: seq<IoApic>, isos: seq<Override>, line: Byte): (nat, nat)
    requires forall i :: 0 <= i < |apics| ==> |apics[i].regs| == 256
    requires Routable(apics, isos, line)
  {
    var gsi := Effective(isos, line).0;
    var n := GetGsi(apics, gsi);
    (n, RedirectionRegister(gsi - apics[n].gsiBase))
  }

  /** The line's redirection entry, as the hardware reads it. */
  function LineEntry(s: Irq, isos: seq<Override>, line: Byte): Word
    requires Shaped(s) && Routable(s.apics, isos, line)
  {
    s.apics[Slot(s.apics, isos, line).0].regs[Slot(s.apics, isos, line).1]
  }

  predicate Unmasked(entry: Word) { entry / MASKED % 2 == 0 }
  function VectorOf(entry: Word): Byte { entry % 256 }

  /** The whole path of an interrupt on a line: its entry, the vector in it, the handler for that vector. */
  function Deliver(s: Irq, isos: seq<Override>, line: Byte): Handler
    requires Shaped(s) && Routable(s.apics, isos, line)
  {
    var entry := LineEntry(s, isos, line);
    if Unmasked(entry) && 32 <= VectorOf(entry) then Dispatch(s, VectorOf(entry)) else 0
  }

  lemma RedirectFields(line: Byte, flags: nat)
    requires line < LINES
    ensures var e := RedirectLow(line + 32, flags, false); Unmasked(e) && VectorOf(e) == line + 32
    ensures !Unmasked(RedirectLow(line + 32, flags, true))
  {
  }

  // ---------- one registration ----------

  /** The controllers differ at most in redirection registers: what covers what has not changed. */
  ghost predicate SameCoverage(before: seq<IoApic>, after: seq<IoApic>) {
    && |after| == |before|
    && forall i :: 0 <= i < |before| ==>
         && |before[i].regs| == |after[i].regs| == 256 && after[i].gsiBase == before[i].gsiBase
         && after[i].regs[IOAPIC_VER] == before[i].regs[IOAPIC_VER]
  }

  lemma {:induction false} CoverageKeepsGetGsi(before: seq<IoApic>, after: seq<IoApic>, gsi: Word)
    requires SameCoverage(before, after)
    ensures GetGsi(after, gsi) == GetGsi(before, gsi)
  {
    if before != [] {
      CoverageKeepsGetGsi(before[1..], after[1..], gsi);
    }
  }

  lemma CoverageKeepsSlot(before: seq<IoApic>, after: seq<IoApic>, isos: seq<Override>, line: Byte)
    requires SameCoverage(before, after) && Routable(before, isos, line)
    ensures Routable(after, isos, line) && Slot(after, isos, line) == Slot(before, isos, line)
  {
    CoverageKeepsGetGsi(before, after, Effective(isos, line).0);
  }

  /** Different interrupts have different entries. */
  lemma SlotsDistinct(apics: seq<IoApic>, isos: seq<Override>, i: Byte, j: Byte)
    requires forall k :: 0 <= k < |apics| ==> |apics[k].regs| == 256
    requires Routable(apics, isos, i) && Routable(apics, isos, j) && Effective(isos, i).0 != Effective(isos, j).0
    ensures Slot(apics, isos, i) != Slot(apics, isos, j)
  {
    RegisterOf(apics, isos, i);
    RegisterOf(apics, isos, j);
  }

  lemma RegisterOf(apics: seq<IoApic>, isos: seq<Override>, line: Byte)
    requires forall k :: 0 <= k < |apics| ==> |apics[k].regs| == 256
    requires Routable(apics, isos, line)
    ensures var (n, reg) := Slot(apics, isos, line);
      && n < |apics| && reg == (Effective(isos, line).0 - apics[n].gsiBase) * 2 + 0x10
      && IOAPIC_REDTBL <= reg < 255 && reg % 2 == 0
  {
    var n := Slot(apics, isos, line).0;
    RegisterExactIff(Effective(isos, line).0 - apics[n].gsiBase);
  }

  /** The search from controller n on. */
  lemma {:induction false} GetGsiFrom(apics: seq<IoApic>, gsi: Word, n: nat)
    requires forall i :: 0 <= i < |apics| ==> |apics[i].regs| == 256
    requires n < |apics|
    ensures GetGsi(apics[n..], gsi) == if Serves(apics[n], gsi) then 0 else 1 + GetGsi(apics[n + 1..], gsi)
  {
    assert apics[n..][0] == apics[n] && apics[n..][1..] == apics[n + 1..];
  }

  lemma WriteRegsEffect(a: IoApic, offset: nat, low: Word, high: Word)
    requires |a.regs| == 256 && offset <= LAST_PIN
    ensures var b, reg := WriteRegs(a, offset, low, high), offset * 2 + IOAPIC_REDTBL;
      && reg < 255 && |b.regs| == 256 && b.gsiBase == a.gsiBase && b.regs[IOAPIC_VER] == a.regs[IOAPIC_VER]
      && b.regs[reg] == low && b.regs[reg + 1] == high
      && forall r :: 0 <= r < 256 && r != reg && r != reg + 1 ==> b.regs[r] == a.regs[r]
  {
    RegisterExactIff(offset);
  }

  /** What a registration does to the controllers: its own two registers, and nothing else. */
  lemma RegisterEffect(s: Irq, isos: seq<Override>, line: Byte, handler: Handler)
    requires Shaped(s) && s.enabled && line <= 15 && Routable(s.apics, isos, line)
    ensures var t := Apply(s, isos, Register(line, handler));
      var (n, reg) := Slot(s.apics, isos, line);
      && Shaped(t) && SameCoverage(s.apics, t.apics) && reg < 255
      && t.apics[n].regs[reg] == RedirectLow(line + 32, Effective(isos, line).1, false)
      && t.apics[n].regs[reg + 1] == RedirectHigh(0)
      && forall a, r :: 0 <= a < |s.apics| && 0 <= r < 256 && !(a == n && (r == reg || r == reg + 1)) ==>
           t.apics[a].regs[r] == s.apics[a].regs[r]
  {
    hide GetGsi, Effective, RedirectLow;
    RegisterOf(s.apics, isos, line);
    var (gsi, flags) := Effective(isos, line);
    var n := GetGsi(s.apics, gsi);
    var low, offset := RedirectLow(line + 32, flags, false), gsi - s.apics[n].gsiBase;
    WriteRegsEffect(s.apics[n], offset, low, RedirectHigh(0));
    assert Apply(s, isos, Register(line, handler)).apics ==
      s.apics[n := WriteRegs(s.apics[n], offset, low, RedirectHigh(0))];
  }

  /** Lines above 15, and all lines while routing is off, only enter their handler; so does an unregistration. */
  lemma RegisterElsewhere(s: Irq, isos: seq<Override>, call: Call)
    requires Shaped(s) && (s.enabled ==> call.Unregister? || call.line > 15)
    ensures var t := Apply(s, isos, call);
      t == s.(handlers := s.handlers[call.line := if call.Register? then call.handler else 0])
  {
  }

  // ---------- runs ----------

  ghost function RunCalls(s: Irq, isos: seq<Override>, calls: seq<Call>, lines: set<Byte>): (t: Irq)
    requires Shaped(s) && AllRoutable(s.apics, isos, lines) && UsesOnly(calls, lines)
    ensures Shaped(t) && AllRoutable(t.apics, isos, lines) && SameCoverage(s.apics, t.apics) && t.enabled == s.enabled
    decreases |calls|
  {
    if calls == [] then s else
    ApplyKeepsRouting(s, isos, calls[0], lines);
    UsesRest(calls, lines);
    RunCalls(Apply(s, isos, calls[0]), isos, calls[1..], lines)
  }

  lemma UsesRest(calls: seq<Call>, lines: set<Byte>)
    requires calls != [] && UsesOnly(calls, lines)
    ensures UsesOnly(calls[1..], lines)
  {
    assert forall i :: 0 <= i < |calls| - 1 ==> calls[1..][i] == calls[i + 1];
  }

  lemma ApplyKeepsRouting(s: Irq, isos: seq<Override>, call: Call, lines: set<Byte>)
    requires Shaped(s) && AllRoutable(s.apics, isos, lines) && UsesOnly([call], lines)
    ensures s.enabled && call.Register? && call.line < LINES ==> Routable(s.apics, isos, call.line)
    ensures var t := Apply(s, isos, call);
      Shaped(t) && AllRoutable(t.apics, isos, lines) && SameCoverage(s.apics, t.apics) && t.enabled == s.enabled
  {
    assert [call][0] == call;
    var t := Apply(s, isos, call);
    if call.Register? && s.enabled && call.line < LINES {
      RegisterEffect(s, isos, call.line, call.handler);
    }
    forall line | line in lines ensures Routable(t.apics, isos, line) {
      CoverageKeepsSlot(s.apics, t.apics, isos, line);
    }
  }

  /** The handler a line is left with. */
  function LastHandler(calls: seq<Call>, line: Byte, start: Handler): Handler
    decreases |calls|
  {
    if calls == [] then start else
    LastHandler(calls[1..], line,
      if calls[0].line != line then start else if calls[0].Register? then calls[0].handler else 0)
  }

  predicate Registers(calls: seq<Call>, line: Byte)
    decreases |calls|
  {
    calls != [] && ((calls[0].Register? && calls[0].line == line) || Registers(calls[1..], line))
  }

  lemma {:induction false} RunHandlers(s: Irq, isos: seq<Override>, calls: seq<Call>, lines: set<Byte>, line: Byte)
    requires Shaped(s) && AllRoutable(s.apics, isos, lines) && UsesOnly(calls, lines)
    ensures RunCalls(s, isos, calls, lines).handlers[line] == LastHandler(calls, line, s.handlers[line])
    decreases |calls|
  {
    if calls != [] {
      ApplyKeepsRouting(s, isos, calls[0], lines);
      UsesRest(calls, lines);
      RunHandlers(Apply(s, isos, calls[0]), isos, calls[1..], lines, line);
    }
  }

  /** A call leaves the entries of the other lines as they were. */
  lemma OtherEntriesKept(s: Irq, isos: seq<Override>, call: Call, lines: set<Byte>, line: Byte)
    requires Shaped(s) && AllRoutable(s.apics, isos, lines) && Distinct(isos, lines) && UsesOnly([call], lines)
    requires line in lines && !(call.Register? && call.line == line)
    ensures s.enabled && call.Register? && call.line < LINES ==> Routable(s.apics, isos, call.line)
    ensures Shaped(Apply(s, isos, call)) && Routable(Apply(s, isos, call).apics, isos, line)
    ensures LineEntry(Apply(s, isos, call), isos, line) == LineEntry(s, isos, line)
  {
    ApplyKeepsRouting(s, isos, call, lines);
    assert [call][0] == call;
    CoverageKeepsSlot(s.apics, Apply(s, isos, call).apics, isos, line);
    if call.Register? && s.enabled && call.line < LINES {
      RegisterEffect(s, isos, call.line, call.handler);
      SlotsDistinct(s.apics, isos, call.line, line);
      RegisterOf(s.apics, isos, call.line);
      RegisterOf(s.apics, isos, line);
    }
  }

  /** After any run a line that was registered has its own unmasked entry; one that was not has the entry it had. */
  lemma {:induction false} RunEntry(s: Irq, isos: seq<Override>, calls: seq<Call>, lines: set<Byte>, line: Byte)
    requires Shaped(s) && s.enabled && AllRoutable(s.apics, isos, lines) && Distinct(isos, lines)
    requires UsesOnly(calls, lines) && line in lines
    ensures LineEntry(RunCalls(s, isos, calls, lines), isos, line) ==
      if Registers(calls, line) then RedirectLow(line + 32, Effective(isos, line).1, false)
      else LineEntry(s, isos, line)
    decreases |calls|
  {
    if calls != [] {
      ApplyKeepsRouting(s, isos, calls[0], lines);
      UsesRest(calls, lines);
      var t := Apply(s, isos, calls[0]);
      RunEntry(t, isos, calls[1..], lines, line);
      if calls[0].Register? && calls[0].line == line {
        RegisterEffect(s, isos, line, calls[0].handler);
        CoverageKeepsSlot(s.apics, t.apics, isos, line);
      } else {
        OtherEntriesKept(s, isos, calls[0], lines, line);
      }
    }
  }

  /**
   * The whole chain: after any sequence of registrations of lines with distinct, covered interrupts, an interrupt on
   * a line that was ever registered reaches the handler last registered for it, and nothing once that is unregistered.
   */
  lemma RoutingIsCorrect(s: Irq, isos: seq<Override>, calls: seq<Call>, lines: set<Byte>, line: Byte)
    requires Shaped(s) && s.enabled && AllRoutable(s.apics, isos, lines) && Distinct(isos, lines)
    requires UsesOnly(calls, lines)
    requires line in lines && Registers(calls, line)
    ensures Deliver(RunCalls(s, isos, calls, lines), isos, line) == LastHandler(calls, line, s.handlers[line])
  {
    RunEntry(s, isos, calls, lines, line);
    RunHandlers(s, isos, calls, lines, line);
    RedirectFields(line, Effective(isos, line).1);
  }

  /** A line whose entry is masked and that is never registered stays silent. */
  lemma MaskedStaysSilent(s: Irq, isos: seq<Override>, calls: seq<Call>, lines: set<Byte>, line: Byte)
    requires Shaped(s) && s.enabled && AllRoutable(s.apics, isos, lines) && Distinct(isos, lines)
    requires UsesOnly(calls, lines)
    requires line in lines && !Registers(calls, line)
    requires !Unmasked(LineEntry(s, isos, line))
    ensures Deliver(RunCalls(s, isos, calls, lines), isos, line) == 0
  {
    RunEntry(s, isos, calls, lines, line);
  }

  // ---------- registers no line owns ----------

  /** No registration of these lines writes register r of controller a. */
  ghost predicate Unclaimed(apics: seq<IoApic>, isos: seq<Override>, lines: set<Byte>, a: nat, r: nat)
    requires AllRoutable(apics, isos, lines)
  {
    forall line :: line in lines ==>
      var (n, reg) := Slot(apics, isos, line); !(a == n && (r == reg || r == reg + 1))
  }

  lemma ApplyKeepsUnclaimed(s: Irq, isos: seq<Override>, call: Call, lines: set<Byte>, a: nat, r: nat)
    requires Shaped(s) && AllRoutable(s.apics, isos, lines) && UsesOnly([call], lines)
    requires a < |s.apics| && r < 256 && Unclaimed(s.apics, isos, lines, a, r)
    ensures s.enabled && call.Register? && call.line < LINES ==> Routable(s.apics, isos, call.line)
    ensures var t := Apply(s, isos, call);
      && Shaped(t) && |t.apics| == |s.apics| && t.apics[a].regs[r] == s.apics[a].regs[r]
      && AllRoutable(t.apics, isos, lines) && Unclaimed(t.apics, isos, lines, a, r)
  {
    ApplyKeepsRouting(s, isos, call, lines);
    var t := Apply(s, isos, call);
    forall line | line in lines ensures Slot(t.apics, isos, line) == Slot(s.apics, isos, line) {
      CoverageKeepsSlot(s.apics, t.apics, isos, line);
    }
    assert [call][0] == call;
    if call.Register? && s.enabled && call.line < LINES {
      RegisterEffect(s, isos, call.line, call.handler);
    }
  }

  /** No run changes a register that belongs to none of the lines it registers, on any controller. */
  lemma {:induction false} RunKeepsUnclaimed(
      s: Irq, isos: seq<Override>, calls: seq<Call>, lines: set<Byte>, a: nat, r: nat)
    requires Shaped(s) && AllRoutable(s.apics, isos, lines) && UsesOnly(calls, lines)
    requires a < |s.apics| && r < 256 && Unclaimed(s.apics, isos, lines, a, r)
    ensures RunCalls(s, isos, calls, lines).apics[a].regs[r] == s.apics[a].regs[r]
    decreases |calls|
  {
    if calls != [] {
      ApplyKeepsRouting(s, isos, calls[0], lines);
      ApplyKeepsUnclaimed(s, isos, calls[0], lines, a, r);
      UsesRest(calls, lines);
      RunKeepsUnclaimed(Apply(s, isos, calls[0]), isos, calls[1..], lines, a, r);
    }
  }

  // ---------- ioapic_install ----------

  /** The registers of a controller with its first n entries masked, with vectors 32 and up, for CPU 0. */
  function Masked(regs: seq<Word>, n: nat): (r: seq<Word>)
    requires |regs| == 256 && n <= LAST_PIN + 1
    ensures |r| == 256
  {
    seq(256, r requires 0 <= r < 256 =>
      if r < IOAPIC_REDTBL || r >= IOAPIC_REDTBL + 2 * n then regs[r]
      else if r % 2 == 0 then MASKED + (r - IOAPIC_REDTBL) / 2 + 32 else 0)
  }

  /** The controller has the id that the MADT announced. */
  predicate IdMatches(a: IoApic)
    requires |a.regs| == 256
  {
    a.regs[IOAPIC_ID] / 0x100_0000 == a.id
  }

  /** `ioapic_install`: it masks every entry of the first controller, if the id of that matches. */
  function Installed(s: Irq): Irq
    requires Shaped(s) && |s.apics| > 0 && GsiCount(s.apics[0]) <= LAST_PIN
  {
    var a := s.apics[0];
    if !IdMatches(a) then s else s.(enabled := true, apics := s.apics[0 := a.(regs := Masked(a.regs, GsiCount(a) + 1))])
  }

  /**
   * What installation does to a controller whose id register has `top` in its upper byte: it is refused exactly when
   * that is not the announced id, and else every one of its entries is masked, nothing else is written, and routing
   * is enabled.
   */
  lemma InstallIff(s: Irq, top: nat, r: nat)
    requires Shaped(s) && |s.apics| > 0 && GsiCount(s.apics[0]) <= LAST_PIN
    requires s.apics[0].regs[0] == top * 0x100_0000 + r && r < 0x100_0000
    ensures var t, a := Installed(s), s.apics[0];
      if top != a.id then t == s else
      && t.enabled && t.handlers == s.handlers && |t.apics| == |s.apics|
      && (forall i :: 0 < i < |s.apics| ==> t.apics[i] == s.apics[i])
      && t.apics[0] == a.(regs := t.apics[0].regs) && |t.apics[0].regs| == 256
      && (forall pin :: 0 <= pin <= GsiCount(a) ==>
           t.apics[0].regs[16 + 2 * pin] == 0x1_0000 + pin + 32 && t.apics[0].regs[17 + 2 * pin] == 0)
      && (forall r :: 0 <= r < 256 && !(16 <= r < 18 + 2 * GsiCount(a)) ==> t.apics[0].regs[r] == a.regs[r])
  {
    DivisionIs(s.apics[0].regs[0], 0x100_0000, top, r);
  }

  lemma InstallKeepsCoverage(s: Irq)
    requires Shaped(s) && |s.apics| > 0 && GsiCount(s.apics[0]) <= LAST_PIN
    ensures Shaped(Installed(s)) && SameCoverage(s.apics, Installed(s).apics)
  {
  }

  lemma AllStayRoutable(before: seq<IoApic>, after: seq<IoApic>, isos: seq<Override>, lines: set<Byte>)
    requires SameCoverage(before, after) && AllRoutable(before, isos, lines)
    ensures AllRoutable(after, isos, lines)
    ensures forall line :: line in lines ==> Slot(after, isos, line) == Slot(before, isos, line)
  {
    forall line | line in lines
      ensures Routable(after, isos, line) && Slot(after, isos, line) == Slot(before, isos, line)
    {
      CoverageKeepsSlot(before, after, isos, line);
    }
  }

  /** Right after installation every line routed to the first controller is masked. */
  lemma InstalledIsMasked(s: Irq, isos: seq<Override>, line: Byte)
    requires Shaped(s) && |s.apics| > 0 && GsiCount(s.apics[0]) <= LAST_PIN
    requires s.apics[0].regs[0] / 0x100_0000 == s.apics[0].id
    requires line < LINES && Routable(s.apics, isos, line) && Slot(s.apics, isos, line).0 == 0
    ensures var t := Installed(s); Shaped(t) && Routable(t.apics, isos, line) && !Unmasked(LineEntry(t, isos, line))
  {
    InstallKeepsCoverage(s);
    CoverageKeepsSlot(s.apics, Installed(s).apics, isos, line);
    RegisterOf(s.apics, isos, line);
    MaskedEntry(s.apics[0].regs, GsiCount(s.apics[0]) + 1, Effective(isos, line).0 - s.apics[0].gsiBase);
  }

  lemma MaskedEntry(regs: seq<Word>, n: nat, pin: nat)
    requires |regs| == 256 && pin < n <= LAST_PIN + 1
    ensures Masked(regs, n)[IOAPIC_REDTBL + 2 * pin] == MASKED + pin + 32
    ensures !Unmasked(MASKED + pin + 32)
  {
  }

  lemma MaskedNext(regs: seq<Word>, i: nat)
    requires |regs| == 256 && i <= LAST_PIN
    ensures Masked(regs, i + 1) ==
      Masked(regs, i)[IOAPIC_REDTBL + 2 * i := MASKED + i + 32][IOAPIC_REDTBL + 2 * i + 1 := 0]
  {
  }

  /**
   * From installation on, through every run of registrations, a pin of the first controller that belongs to none of
   * the registered lines keeps the masked entry installation gave it.
   */
  lemma OthersStayMasked(s: Irq, isos: seq<Override>, calls: seq<Call>, lines: set<Byte>, pin: nat)
    requires Shaped(s) && |s.apics| > 0 && GsiCount(s.apics[0]) <= LAST_PIN
    requires s.apics[0].regs[0] / 0x100_0000 == s.apics[0].id
    requires AllRoutable(s.apics, isos, lines) && UsesOnly(calls, lines) && pin <= GsiCount(s.apics[0])
    requires forall line :: line in lines ==> Slot(s.apics, isos, line) != (0, IOAPIC_REDTBL + 2 * pin)
    ensures var t := Installed(s);
      && Shaped(t) && AllRoutable(t.apics, isos, lines)
      && var entry := RunCalls(t, isos, calls, lines).apics[0].regs[IOAPIC_REDTBL + 2 * pin];
         entry == MASKED + pin + 32 && !Unmasked(entry)
  {
    var t := Installed(s);
    InstallKeepsCoverage(s);
    AllStayRoutable(s.apics, t.apics, isos, lines);
    forall line | line in lines ensures Slot(t.apics, isos, line).1 % 2 == 0 {
      RegisterOf(t.apics, isos, line);
    }
    MaskedEntry(s.apics[0].regs, GsiCount(s.apics[0]) + 1, pin);
    RunKeepsUnclaimed(t, isos, calls, lines, 0, IOAPIC_REDTBL + 2 * pin);
  }

  // ---------- lines that share an interrupt ----------

  /**
   * When two lines share an interrupt the later registration takes the entry over: the earlier line is answered with
   * the later one's handler. On a PC this is line 2 once line 0 is overridden to interrupt 2.
   */
  lemma SharedInterruptIsTakenOver(s: Irq, isos: seq<Override>, i: Byte, j: Byte, f: Handler, g: Handler)
    requires Shaped(s) && s.enabled && i < LINES && j < LINES && i != j
    requires Routable(s.apics, isos, i) && Routable(s.apics, isos, j) && Effective(isos, i).0 == Effective(isos, j).0
    ensures var t := Apply(s, isos, Register(i, f));
      && Shaped(t) && Routable(t.apics, isos, j)
      && var u := Apply(t, isos, Register(j, g));
         Shaped(u) && Routable(u.apics, isos, i) && Deliver(u, isos, i) == g
  {
    var t := Apply(s, isos, Register(i, f));
    RegisterEffect(s, isos, i, f);
    CoverageKeepsSlot(s.apics, t.apics, isos, i);
    CoverageKeepsSlot(s.apics, t.apics, isos, j);
    LastRegistrationWins(t, isos, i, j, g);
  }

  lemma LastRegistrationWins(t: Irq, isos: seq<Override>, i: Byte, j: Byte, g: Handler)
    requires Shaped(t) && t.enabled && i < LINES && j < LINES
    requires Routable(t.apics, isos, i) && Routable(t.apics, isos, j) && Effective(isos, i).0 == Effective(isos, j).0
    ensures var u := Apply(t, isos, Register(j, g)); Shaped(u) && Routable(u.apics, isos, i) && Deliver(u, isos, i) == g
  {
    var u := Apply(t, isos, Register(j, g));
    RegisterSets(t, isos, i, j, g);
    DeliverRedirected(u, isos, i, j, Effective(isos, j).1);
  }

  lemma SameSlot(apics: seq<IoApic>, isos: seq<Override>, i: Byte, j: Byte)
    requires forall k :: 0 <= k < |apics| ==> |apics[k].regs| == 256
    requires Routable(apics, isos, i) && Routable(apics, isos, j) && Effective(isos, i).0 == Effective(isos, j).0
    ensures Slot(apics, isos, i) == Slot(apics, isos, j)
  {
  }

  /** Lines with the same interrupt share one entry, which the registration of either sets. */
  lemma RegisterSets(t: Irq, isos: seq<Override>, i: Byte, j: Byte, g: Handler)
    requires Shaped(t) && t.enabled && i < LINES && j < LINES
    requires Routable(t.apics, isos, i) && Routable(t.apics, isos, j) && Effective(isos, i).0 == Effective(isos, j).0
    ensures var u := Apply(t, isos, Register(j, g));
      && Shaped(u) && Routable(u.apics, isos, i)
      && LineEntry(u, isos, i) == RedirectLow(j + 32, Effective(isos, j).1, false)
  {
    RegisterEffect(t, isos, j, g);
    CoverageKeepsSlot(t.apics, Apply(t, isos, Register(j, g)).apics, isos, i);
    SameSlot(t.apics, isos, i, j);
  }

  lemma DeliverRedirected(u: Irq, isos: seq<Override>, i: Byte, j: Byte, flags: nat)
    requires Shaped(u) && Routable(u.apics, isos, i) && j < LINES
    requires LineEntry(u, isos, i) == RedirectLow(j + 32, flags, false)
    ensures Deliver(u, isos, i) == u.handlers[j]
  {
    RedirectFields(j, flags);
    DeliverEntry(u, isos, i, j);
  }

  lemma DeliverEntry(u: Irq, isos: seq<Override>, i: Byte, j: Byte)
    requires Shaped(u) && Routable(u.apics, isos, i) && j < LINES
    requires Unmasked(LineEntry(u, isos, i)) && VectorOf(LineEntry(u, isos, i)) == j + 32
    ensures Deliver(u, isos, i) == u.handlers[j]
  {
  }

  /** Every run of registrations of these lines leaves each of them with its last handler. */
  ghost predicate RoutingIsRight(s: Irq, isos: seq<Override>, lines: set<Byte>)
    requires Shaped(s) && AllRoutable(s.apics, isos, lines)
  {
    forall calls, line :: UsesOnly(calls, lines) && line in lines && Registers(calls, line) ==>
      Deliver(RunCalls(s, isos, calls, lines), isos, line) == LastHandler(calls, line, s.handlers[line])
  }

  lemma TwoCalls(s: Irq, isos: seq<Override>, lines: set<Byte>, a: Call, b: Call)
    requires Shaped(s) && AllRoutable(s.apics, isos, lines) && UsesOnly([a, b], lines)
    ensures s.enabled && a.Register? && a.line < LINES ==> Routable(s.apics, isos, a.line)
    ensures var t := Apply(s, isos, a);
      && Shaped(t) && AllRoutable(t.apics, isos, lines) && t.enabled == s.enabled
      && (t.enabled && b.Register? && b.line < LINES ==> Routable(t.apics, isos, b.line))
      && RunCalls(s, isos, [a, b], lines) == Apply(t, isos, b)
  {
    UsesRest([a, b], lines);
    assert [a, b][0] == a && [a, b][1..] == [b] && [b][1..] == [];
    ApplyKeepsRouting(s, isos, a, lines);
    var t := Apply(s, isos, a);
    assert RunCalls(s, isos, [a, b], lines) == RunCalls(t, isos, [b], lines);
    ApplyKeepsRouting(t, isos, b, lines);
    UsesRest([b], lines);
    assert RunCalls(t, isos, [b], lines) == RunCalls(Apply(t, isos, b), isos, [], lines);
  }

  lemma TwoHandlers(i: Byte, j: Byte, f: Handler, g: Handler, start: Handler)
    requires i != j
    ensures var calls := [Register(i, f), Register(j, g)]; Registers(calls, i) && LastHandler(calls, i, start) == f
  {
    var calls := [Register(i, f), Register(j, g)];
    assert calls[1..] == [Register(j, g)] && [Register(j, g)][1..] == [];
    assert LastHandler(calls, i, start) == LastHandler([Register(j, g)], i, f) == LastHandler([], i, f);
  }

  /** The two calls that show a conflict: after them line i is answered with the handler of line j. */
  lemma ConflictShows(s: Irq, isos: seq<Override>, lines: set<Byte>, i: Byte, j: Byte)
    requires Shaped(s) && s.enabled && AllRoutable(s.apics, isos, lines)
    requires i in lines && j in lines && i != j && Effective(isos, i).0 == Effective(isos, j).0
    ensures !RoutingIsRight(s, isos, lines)
  {
    hide RunCalls, Deliver, Apply, Routable, Effective;
    var first, second := Register(i, 1), Register(j, 2);
    TwoCalls(s, isos, lines, first, second);
    LastRegistrationWins(Apply(s, isos, first), isos, i, j, 2);
    TwoHandlers(i, j, 1, 2, s.handlers[i]);
  }

  /** Routing is right for every run exactly when no two of the lines have the same interrupt. */
  lemma RoutingIsRightIff(s: Irq, isos: seq<Override>, lines: set<Byte>)
    requires Shaped(s) && s.enabled && AllRoutable(s.apics, isos, lines)
    ensures RoutingIsRight(s, isos, lines) <==> Distinct(isos, lines)
  {
    if Distinct(isos, lines) {
      forall calls, line | UsesOnly(calls, lines) && line in lines && Registers(calls, line)
        ensures Deliver(RunCalls(s, isos, calls, lines), isos, line) == LastHandler(calls, line, s.handlers[line])
      {
        RoutingIsCorrect(s, isos, calls, lines, line);
      }
    } else {
      var i, j :| i in lines && j in lines && i != j && Effective(isos, i).0 == Effective(isos, j).0;
      ConflictShows(s, isos, lines, i, j);
    }
  }

  /** The PC: one controller with 24 pins, and the timer on line 0 overridden to interrupt 2, which is line 2's own. */
  lemma TimerTakesLineTwo(s: Irq)
    requires Shaped(s) && s.enabled && |s.apics| == 1 && s.apics[0].gsiBase == 0 && GsiCount(s.apics[0]) == 23
    ensures AllRoutable(s.apics, [Override(0, 2, 0)], {0, 2}) && !RoutingIsRight(s, [Override(0, 2, 0)], {0, 2})
  {
    var isos := [Override(0, 2, 0)];
    assert isos[1..] == [];
    assert Effective(isos, 0).0 == 2 && Effective(isos, 2).0 == 2;
    ConflictShows(s, isos, {0, 2}, 0, 2);
  }
}
