/**
 * The breakpoint table of the debugger, `HashMap<PCValue, Breakpoint>`, as
 * a value, and the re-keying it undergoes when the debuggee starts: every
 * breakpoint set at a file address moves to the process address the file
 * was mapped to, and then every breakpoint is enabled.
 */
module Breakpoints {
  import opened Addresses

  /** Where a breakpoint sits: a process address or a not yet relocated file address. */
  datatype PCValue = Relocated(relocated: RelocatedAddress) | Global(global: GlobalAddress)

  /** A breakpoint: its address and whether its trap instruction is written. */
  datatype Breakpoint = Breakpoint(addr: PCValue, enabled: bool)

  type Table = map<PCValue, Breakpoint>

  /** Each breakpoint is stored under its own address. */
  ghost predicate KeyedByAddress(t: Table) {
    forall k :: k in t ==> t[k].addr == k
  }

  ghost predicate AllRelocated(t: Table) {
    forall k :: k in t ==> k.Relocated?
  }

  ghost predicate AllEnabled(t: Table) {
    forall k :: k in t ==> t[k].enabled
  }

  /** The keys after re-keying: relocated keys stay, file addresses are relocated. */
  function RelocatedKeys(t: Table, offset: Usize): (keys: set<PCValue>)
    ensures forall k :: k in keys ==> k.Relocated?
  {
    (set k | k in t && k.Relocated?) + (set k | k in t && k.Global? :: Relocated(Relocate(k.global, offset)))
  }

  /**
   * The table after the first loops of the `DebugeeStart` arm: the entry of
   * a file address `a` moves to `Relocated(a + offset)` with its address
   * updated, replacing an entry already there.
   */
  function RelocateTable(t: Table, offset: Usize): (r: Table)
    ensures AllRelocated(r)
  {
    map k | k in RelocatedKeys(t, offset) ::
      var g := Global(IntoGlobal(k.relocated, offset));
      if g in t then t[g].(addr := k) else t[k]
  }

  /** The table after `try_for_each(|brkpt| brkpt.enable())`. */
  function EnableAll(t: Table): (r: Table)
    ensures r.Keys == t.Keys && AllEnabled(r)
  {
    map k | k in t :: t[k].(enabled := true)
  }

  /** Re-keying moves each file-address entry to its relocated key, with a matching address. */
  lemma RelocateTableMovesGlobals(t: Table, offset: Usize, a: GlobalAddress)
    requires Global(a) in t
    ensures var k := Relocated(Relocate(a, offset));
            k in RelocateTable(t, offset) && RelocateTable(t, offset)[k] == t[Global(a)].(addr := k)
  {
    var k := Relocated(Relocate(a, offset));
    assert k in RelocatedKeys(t, offset);
    IntoGlobalAfterRelocate(a, offset);
  }

  /** A relocated entry stays unless a file-address entry is moved onto its key. */
  lemma RelocateTableKeepsRelocated(t: Table, offset: Usize, x: RelocatedAddress)
    requires Relocated(x) in t && Global(IntoGlobal(x, offset)) !in t
    ensures Relocated(x) in RelocateTable(t, offset) && RelocateTable(t, offset)[Relocated(x)] == t[Relocated(x)]
  {
  }

  /** Every key after re-keying comes from a key before it. */
  lemma RelocateTableKeysFromOld(t: Table, offset: Usize, k: PCValue)
    requires k in RelocateTable(t, offset)
    ensures k.Relocated? && (k in t || Global(IntoGlobal(k.relocated, offset)) in t)
  {
    if k !in t {
      var g :| g in t && g.Global? && k == Relocated(Relocate(g.global, offset));
      IntoGlobalAfterRelocate(g.global, offset);
    }
  }

  /** Re-keying keeps every breakpoint stored under its own address. */
  lemma RelocateTableKeyedByAddress(t: Table, offset: Usize)
    requires KeyedByAddress(t)
    ensures KeyedByAddress(RelocateTable(t, offset))
  {
  }

  /** A table of relocated, enabled breakpoints is left as it is by the start of the debuggee. */
  lemma StartKeepsSettledTable(t: Table, offset: Usize)
    requires AllRelocated(t) && AllEnabled(t)
    ensures EnableAll(RelocateTable(t, offset)) == t
  {
    var r := EnableAll(RelocateTable(t, offset));
    forall k | k in t
      ensures k in r && r[k] == t[k]
    {
      assert k in RelocatedKeys(t, offset);
    }
    forall k | k in r
      ensures k in t
    {
      RelocateTableKeysFromOld(t, offset, k);
    }
  }
}
