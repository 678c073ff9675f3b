/**
 The left-looking double-byte state of a position, used to validate write operations
 (ctlr_lookleft_state, Common/ctlr.c:2338-2411).
 */
module DbcsLook {
  import opened Bytes
  import opened Screen

  // DBCS_FIELD, DBCS_SUBFIELD and DBCS_ATTRIBUTE.
  datatype Why = InField | InSubfield | InAttribute

  datatype Look = Look(state: DbcsState, why: Why)

  const NOT_DBCS := Look(DbNone, InField)

  predicate IsShift(ec: byte) { ec == EBC_SO || ec == EBC_SI }

  function Half(distance: nat): DbcsState
  {
    if distance % 2 == 1 then DbLeft else DbRight
  }

  // The address at which a backward scan has to stop: the attribute, or the end of an
  // unformatted screen.
  function Stop(f: int, n: nat): (r: nat)
    requires n > 0 && -1 <= f < n
    ensures r < n
  {
    if f < 0 then n - 1 else f
  }

  // Back over cells that carry the DBCS character set and are not SO or SI.
  function AttributeStart(cells: seq<Cell>, n: nat, f: int, x: nat): (r: nat)
    requires x < n <= |cells| && -1 <= f < n
    ensures r < n
    decreases Off(Stop(f, n), x, n)
  {
    if x != Stop(f, n) && cells[x].cs == CS_DBCS && !IsShift(cells[x].ec)
    then AttributeStart(cells, n, f, Dec(x, n))
    else x
  }

  // The nearest SO before `x` that no SI closes, or -1.
  function OpenShift(cells: seq<Cell>, n: nat, f: int, x: nat, si: bool): (r: int)
    requires x < n <= |cells| && -1 <= f < n
    ensures -1 <= r < n
    decreases Off(Stop(f, n), x, n)
  {
    if x == Stop(f, n) then -1
    else if cells[x].ec == EBC_SI then OpenShift(cells, n, f, Dec(x, n), true)
    else if cells[x].ec == EBC_SO then
      if si then OpenShift(cells, n, f, Dec(x, n), false) else x
    else OpenShift(cells, n, f, Dec(x, n), si)
  }

  function LookLeft(dbcs: bool, cells: seq<Cell>, n: nat, formatted: bool, a: nat): (r: Look)
    requires a < n <= |cells|
    ensures r.state in {DbNone, DbLeft, DbRight}
    ensures !dbcs ==> r == NOT_DBCS
  {
    if !dbcs then NOT_DBCS
    else
      var f := FindField(cells, n, formatted, a);
      if f >= 0 && cells[f].cs == CS_DBCS then Look(Half(a + n - f), InField)
      else if cells[a].cs == CS_DBCS then
        if IsShift(cells[a].ec) then NOT_DBCS
        else Look(Half(a + n - AttributeStart(cells, n, f, a)), InAttribute)
      else
        var so := OpenShift(cells, n, f, Dec(a, n), false);
        if so < 0 then NOT_DBCS else Look(Half(a + n - so), InSubfield)
  }
}
