/**
 The invariant of the device over every run of commands, each an arbitrary byte string, and what
 it means for erase commands that change the screen size.
 */
module DeviceInvariant {
  import opened Bytes
  import opened Screen
  import opened WriteOrders
  import opened DbcsPost
  import opened Commands
  import opened WriteSafety

  // Nothing is left outside the active screen.
  predicate Clean(v: Dev)
  {
    forall k :: v.N() <= k < |v.cells| ==> v.cells[k] == NULL_CELL
  }

  /** The screen has one of its two sizes, the cursor is on it, cells are well formed, the formatted flag says
      whether some active cell holds an attribute and, unless control characters are made visible, nothing is
      left outside the screen. */
  predicate Invariant(m: Model, v: Dev)
  {
    && v.Fits(m) && AllOk(v.cells) && DefaultsOk(v.d)
    && v.rows == m.Rows(v.alt) && v.cols == m.Cols(v.alt)
    && v.formatted == HasField(v.cells, v.N())
    && (!m.visibleControl ==> Clean(v))
  }

  function Initial(m: Model): Dev
    requires m.Valid()
  {
    Dev(seq(m.Allocated(), _ => NULL_CELL), m.defRows, m.defCols, 0, 0, false, false, NO_DEFAULTS, 0)
  }

  function RunCommands(m: Model, v: Dev, commands: seq<seq<byte>>): (r: Dev)
    requires v.Fits(m)
    ensures r.Fits(m)
    decreases |commands|
  {
    if commands == [] then v else RunCommands(m, Processed(m, v, commands[0]).v, commands[1..])
  }

  // Every active cell is null, no field exists and the cursor is home.
  predicate Blank(v: Dev)
    requires v.N() <= |v.cells|
  {
    !v.formatted && v.cursor == 0 && forall k :: 0 <= k < v.N() ==> v.cells[k] == NULL_CELL
  }

  lemma ClearedInvariant(m: Model, v: Dev)
    requires Invariant(m, v)
    ensures Invariant(m, Cleared(v)) && Blank(Cleared(v))
  {
  }

  /** An erase starts from a wholly null, unformatted screen of the right size, also when the
      screen grows into cells that the smaller screen did not show. */
  lemma ErasedBlank(m: Model, v: Dev, alt: bool)
    requires Invariant(m, v)
    ensures var r := Erased(m, v, alt);
            && Invariant(m, r) && Blank(r)
            && r.rows == m.Rows(alt) && r.cols == m.Cols(alt) && r.alt == alt
  {
    ClearedInvariant(m, v);
  }

  // With visible control characters, an erase that changes the size leaves blanks outside.
  lemma VisibleControlLeavesBlanks(m: Model, v: Dev, alt: bool)
    requires Invariant(m, v) && m.visibleControl && alt != v.alt
    ensures var r := Erased(m, v, alt);
            forall k :: r.N() <= k < |r.cells| ==> r.cells[k].ec == EBC_SPACE
  {
  }

  /** An erase leaves nothing outside the screen if and only if control characters are not made visible,
      or nothing was outside before and the size stays, or the new size fills the allocation. */
  lemma ErasedCleanIff(m: Model, v: Dev, alt: bool)
    requires Invariant(m, v)
    ensures Clean(Erased(m, v, alt))
            <==> || !m.visibleControl
                 || if alt == v.alt then Clean(v) else m.Size(alt) == |v.cells|
  {
    hide Erased;
    ErasedBlank(m, v, alt);
    if alt == v.alt {
      SameSizeClean(m, v);
    } else if m.visibleControl {
      VisibleControlLeavesBlanks(m, v, alt);
      BlanksNotClean(Erased(m, v, alt));
    }
  }

  lemma SameSizeClean(m: Model, v: Dev)
    requires Invariant(m, v)
    ensures Clean(Erased(m, v, v.alt)) <==> Clean(v)
  {
    assert Erased(m, v, v.alt) == Cleared(v);
    ClearedClean(v);
  }

  lemma ClearedClean(v: Dev)
    requires v.N() <= |v.cells|
    ensures Clean(Cleared(v)) <==> Clean(v)
  {
    var r := Cleared(v);
    assert forall k :: v.N() <= k < |v.cells| ==> r.cells[k] == v.cells[k];
  }

  lemma BlanksNotClean(r: Dev)
    requires r.N() <= |r.cells| && forall k :: r.N() <= k < |r.cells| ==> r.cells[k].ec == EBC_SPACE
    ensures Clean(r) <==> r.N() == |r.cells|
  {
    if r.N() < |r.cells| {
      assert r.cells[r.N()] != NULL_CELL;
    }
  }

  lemma WithoutMdtOk(c: Cell)
    requires CellOk(c)
    ensures CellOk(WithoutMdt(c)) && (WithoutMdt(c).fa != 0 <==> c.fa != 0)
  {
  }

  lemma EraseAllUnprotectedInvariant(m: Model, v: Dev)
    requires Invariant(m, v)
    ensures Invariant(m, ErasedAllUnprotected(m, v))
  {
    if v.formatted {
      hide WithoutMdt, Unprotected, FirstUnprotected;
      var n := v.N();
      var r := UnprotectedErased(v.cells, n);
      forall k | 0 <= k < |v.cells|
        ensures CellOk(r[k]) && (r[k].fa != 0 <==> v.cells[k].fa != 0)
      {
        WithoutMdtOk(v.cells[k]);
      }
      var k :| 0 <= k < n && v.cells[k].fa != 0;
      assert r[k].fa != 0;
    } else {
      ClearedInvariant(m, v);
    }
  }

  lemma WriteBeginSound(m: Model, v: Dev, wcc: byte)
    requires Invariant(m, v)
    ensures var w := WriteBegin(m, v, wcc); Sound(w) && SameBeyond(v.N(), v.cells, w.cells)
  {
    hide WithoutMdt;
    forall k | 0 <= k < |v.cells| ensures CellOk(WithoutMdt(v.cells[k])) {
      WithoutMdtOk(v.cells[k]);
    }
  }

  /** Every write, of any byte string and whether accepted or rejected, keeps the invariant. */
  lemma WrittenInvariant(m: Model, v: Dev, buf: seq<byte>, erase: bool)
    requires Invariant(m, v)
    ensures Invariant(m, Written(m, v, buf, erase).v)
  {
    if |buf| >= 2 {
      hide Run, PostProcess, WriteBegin;
      var cfg, w := WriteCfg(m, v), WriteBegin(m, v, buf[1]);
      WriteBeginSound(m, v, buf[1]);
      RunSound(cfg, w, buf, 2);
      var o := Run(cfg, w, buf, 2);
      PostProcessSound(m.dbcs, o.w.cells, v.N(), HasField(o.w.cells, v.N()));
    }
  }

  lemma ProcessedInvariant(m: Model, v: Dev, buf: seq<byte>)
    requires Invariant(m, v)
    ensures Invariant(m, Processed(m, v, buf).v)
  {
    hide Written, Erased, ErasedAllUnprotected;
    EraseAllUnprotectedInvariant(m, v);
    ErasedBlank(m, v, true);
    ErasedBlank(m, v, false);
    WrittenInvariant(m, Erased(m, v, true), buf, true);
    WrittenInvariant(m, Erased(m, v, false), buf, true);
    WrittenInvariant(m, v, buf, false);
  }

  /** Over every run of commands, each an arbitrary byte string, the invariant holds. */
  lemma {:induction false} RunInvariant(m: Model, v: Dev, commands: seq<seq<byte>>)
    requires Invariant(m, v)
    ensures Invariant(m, RunCommands(m, v, commands))
    decreases |commands|
  {
    hide Processed;
    if commands != [] {
      ProcessedInvariant(m, v, commands[0]);
      RunInvariant(m, Processed(m, v, commands[0]).v, commands[1..]);
    }
  }

  lemma InitialInvariant(m: Model)
    requires m.Valid()
    ensures Invariant(m, Initial(m))
  {
  }
}
