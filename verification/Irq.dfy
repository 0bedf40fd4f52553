/** The I/O APICs of kernel/dev/ioapic.c and the handler table of kernel/cpu/tables/idt.c, written in place. */
module Irq {
  import opened Words
  import opened IrqModel

  /** One controller: its MADT entry and its memory-mapped registers. */
  class Controller {
    const id: Byte
    const gsiBase: Word
    const regs: array<Word>

    ghost function State(): IoApic
      reads regs
    {
      IoApic(id, gsiBase, regs[..])
    }

    constructor (id: Byte, gsiBase: Word, regs: array<Word>)
      ensures this.id == id && this.gsiBase == gsiBase && this.regs == regs
    {
      this.id, this.gsiBase, this.regs := id, gsiBase, regs;
    }

    /** `ioapic_read`, of a register given by its 8-bit number. */
    method Read(reg: Byte) returns (w: Word)
      requires regs.Length == 256
      ensures w == regs[reg]
    {
      w := regs[reg];
    }

    /** `ioapic_write`. */
    method Write(reg: Byte, w: Word)
      requires regs.Length == 256
      modifies regs
      ensures regs[..] == old(regs[..])[reg := w]
    {
      regs[reg] := w;
    }
  }

  class Router {
    /** `madt_ioapic_list` and `madt_iso_list` as the MADT filled them. */
    const controllers: seq<Controller>
    const isos: seq<Override>
    /** `irq_handlers`. */
    const handlers: array<Handler>
    /** `ioapic_enabled`. */
    var enabled: bool

    ghost function Registers(): set<object> {
      set i | 0 <= i < |controllers| :: controllers[i].regs as object
    }

    ghost function Apics(): seq<IoApic>
      reads Registers()
    {
      seq(|controllers|, i requires 0 <= i < |controllers| reads Registers() => controllers[i].State())
    }

    ghost function State(): IrqModel.Irq
      reads this, handlers, Registers()
    {
      IrqModel.Irq(enabled, Apics(), handlers[..])
    }

    /** Every controller has its own 256 registers; the lists fit the tables they were read into. */
    ghost predicate Valid() {
      && handlers.Length == 256 && |isos| <= 64
      && (forall i :: 0 <= i < |controllers| ==> controllers[i].regs.Length == 256 && controllers[i].regs != handlers)
      && (forall i, j :: 0 <= i < j < |controllers| ==> controllers[i].regs != controllers[j].regs)
    }

    constructor (controllers: seq<Controller>, isos: seq<Override>, handlers: array<Handler>)
      ensures this.controllers == controllers && this.isos == isos && this.handlers == handlers && !enabled
    {
      this.controllers, this.isos, this.handlers, enabled := controllers, isos, handlers, false;
    }

    /** `ioapic_get_gsi`; the list's length stands for NULL. */
    method FindController(gsi: Word) returns (n: nat)
      requires Valid()
      ensures n == GetGsi(Apics(), gsi)
    {
      ghost var apics := Apics();
      n := 0;
      assert apics[0..] == apics;
      while n < |controllers|
        invariant n <= |controllers| && Apics() == apics && GetGsi(apics, gsi) == n + GetGsi(apics[n..], gsi)
      {
        var version := controllers[n].Read(IOAPIC_VER);
        var count := version / 0x1_0000 % 256;
        assert Apics() == apics && apics[n] == controllers[n].State() && count == GsiCount(apics[n]);
        GetGsiFrom(apics, gsi, n);
        if controllers[n].gsiBase <= gsi && controllers[n].gsiBase + count > gsi {
          return n;
        }
        n := n + 1;
      }
      assert n == |apics|;
      assert apics[n..] == [] && GetGsi([], gsi) == 0;
    }

    /** `ioapic_redirect_gsi`. A controller must cover the interrupt. */
    method Redirect(lapicId: Word, vector: Byte, gsi: Word, flags: nat, mask: bool)
      requires Valid() && GetGsi(Apics(), gsi) < |controllers|
      modifies Registers()
      ensures Apics() == RedirectGsi(old(Apics()), lapicId, vector, gsi, flags, mask)
      ensures handlers[..] == old(handlers[..])
    {
      var n := FindController(gsi);
      var c := controllers[n];
      var low := vector + (if flags / 2 % 2 == 1 then 0x2000 else 0) + (if flags / 8 % 2 == 1 then 0x8000 else 0);
      if mask {
        low := low + MASKED;
      }
      var entry := (gsi - c.gsiBase) * 2 + 16;
      CutTwice(entry);
      WriteEntry(n, entry % 256, low, RedirectHigh(lapicId));
    }

    /** The two register writes of a redirection entry. */
    method WriteEntry(n: nat, reg: Byte, low: Word, high: Word)
      requires Valid() && n < |controllers|
      modifies controllers[n].regs
      ensures Apics() == old(Apics())[n := old(controllers[n].State()).(regs :=
        old(controllers[n].regs[..])[reg := low][(reg + 1) % 256 := high])]
      ensures handlers[..] == old(handlers[..])
    {
      ghost var apics := Apics();
      controllers[n].Write(reg, low);
      controllers[n].Write((reg + 1) % 256, high);
      assert forall i :: 0 <= i < |controllers| && i != n ==> controllers[i].State() == apics[i];
    }

    /** `ioapic_redirect_irq`: by the first override for the line, or by its own number. */
    method RedirectIrq(lapicId: Word, vector: Byte, irq: Byte, mask: bool)
      requires Valid() && GetGsi(Apics(), Effective(isos, irq).0) < |controllers|
      modifies Registers()
      ensures var (gsi, flags) := Effective(isos, irq);
        Apics() == RedirectGsi(old(Apics()), lapicId, vector, gsi, flags, mask)
      ensures handlers[..] == old(handlers[..])
    {
      var index := 0;
      while index < |isos|
        invariant index <= |isos| && Effective(isos, irq) == Effective(isos[index..], irq)
        invariant Apics() == old(Apics()) && handlers[..] == old(handlers[..])
      {
        if isos[index].irq == irq {
          Redirect(lapicId, vector, isos[index].gsi, isos[index].flags, mask);
          return;
        }
        index := index + 1;
      }
      Redirect(lapicId, vector, irq, 0, mask);
    }

    /** `irq_register`. */
    method Register(vector: Byte, handler: Handler)
      requires Valid() && Shaped(State()) && (enabled && vector < LINES ==> Routable(Apics(), isos, vector))
      modifies Registers(), handlers
      ensures State() == Apply(old(State()), isos, IrqModel.Register(vector, handler))
    {
      if enabled && vector <= 15 {
        RedirectIrq(0, vector + 32, vector, false);
      }
      SetHandler(vector, handler);
    }

    method SetHandler(vector: Byte, handler: Handler)
      requires Valid()
      modifies handlers
      ensures State() == old(State()).(handlers := old(handlers[..])[vector := handler])
    {
      ghost var apics := Apics();
      handlers[vector] := handler;
      assert forall i :: 0 <= i < |controllers| ==> controllers[i].State() == apics[i];
    }

    /** `irq_unregister`. */
    method Unregister(vector: Byte)
      requires Valid() && Shaped(State())
      modifies handlers
      ensures State() == Apply(old(State()), isos, IrqModel.Unregister(vector))
    {
      SetHandler(vector, 0);
    }

    /** The lookup of `irq_handler`. */
    method Handle(intNo: Byte) returns (handler: Handler)
      requires Valid() && Shaped(State()) && 32 <= intNo
      ensures handler == Dispatch(State(), intNo)
    {
      handler := handlers[intNo - 32];
    }

    /** `ioapic_install` after the page mapping: masks every entry of the first controller, if its id is right. */
    method Install() returns (done: bool)
      requires Valid() && |controllers| > 0 && GsiCount(controllers[0].State()) <= LAST_PIN && Shaped(State())
      modifies this`enabled, controllers[0].regs
      ensures State() == Installed(old(State()))
      ensures done == (old(controllers[0].regs[0]) / 0x100_0000 == controllers[0].id)
    {
      ghost var before, apics := controllers[0].regs[..], Apics();
      assert apics[0] == controllers[0].State();
      done := MaskAll(controllers[0]);
      if done {
        enabled := true;
        assert Apics() == apics[0 := apics[0].(regs := Masked(before, GsiCount(apics[0]) + 1))];
      } else {
        assert Apics() == apics;
      }
    }

    /** The id check and the masking loop. */
    method MaskAll(c: Controller) returns (done: bool)
      requires c.regs.Length == 256 && GsiCount(c.State()) <= LAST_PIN
      modifies c.regs
      ensures done == IdMatches(old(c.State()))
      ensures c.regs[..] == if done then Masked(old(c.regs[..]), old(GsiCount(c.State())) + 1) else old(c.regs[..])
    {
      ghost var before := c.regs[..];
      var idReg := c.Read(IOAPIC_ID);
      var version := c.Read(IOAPIC_VER);
      var count := version / 0x1_0000 % 256;
      if idReg / 0x100_0000 != c.id {
        return false;
      }
      assert Masked(before, 0) == before;
      for i := 0 to count + 1
        invariant c.regs[..] == Masked(before, i)
      {
        c.Write(IOAPIC_REDTBL + 2 * i, MASKED + i + 32);
        c.Write(IOAPIC_REDTBL + 2 * i + 1, 0);
        MaskedNext(before, i);
      }
      return true;
    }
  }

  lemma CutTwice(x: nat)
    ensures (x % 256 + 1) % 256 == (x + 1) % 256
  {
  }
}
