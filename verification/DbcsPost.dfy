/**
 The pass over the buffer that follows every write and sets the double-byte state of each cell
 (ctlr_dbcs_postprocess and valid_dbcs_char, Common/ctlr.c:2413-2598).
 */
module DbcsPost {
  import opened Bytes
  import opened Screen
  import opened DbcsLook

  predicate ValidDbcsChar(c1: byte, c2: byte)
  {
    || (0x40 <= c1 < 0xFF && 0x40 <= c2 < 0xFF)
    || (c1 == 0 && 0x40 <= c2 < 0xFF
        && c2 in {EBC_NULL, EBC_NL, EBC_EM, EBC_FF, EBC_CR, EBC_DUP, EBC_FM})
  }

  /** State of the pass: `db` is the first data position of the current double-byte stretch and
      `pb` the cell visited before, each -1 if there is none; `ok` is false once an error is seen. */
  datatype Post = Post(cells: seq<Cell>, so: bool, si: bool, field: bool, db: int, pb: int, ok: bool)

  predicate PostReady(p: Post, n: nat)
  {
    0 < n <= |p.cells| && -1 <= p.db < n && -1 <= p.pb < n && (p.db >= 0 ==> p.pb >= 0)
  }

  predicate IsDbcsSet(cs: byte) { cs % 4 == CS_DBCS }

  // The shift codes and character sets at `b`, before anything is marked.
  function Classified(p: Post, n: nat, b: nat): (r: Post)
    requires PostReady(p, n) && b < n
  {
    var c := p.cells[b];
    if c.fa != 0 then
      p.(field := IsDbcsSet(c.cs), db := if IsDbcsSet(c.cs) then Inc(b, n) else -1)
    else if c.ec == EBC_SO then
      var bad := p.so || p.field;
      p.(so := true, si := false, db := if bad then p.db else Inc(b, n), ok := p.ok && !bad)
    else if c.ec == EBC_SI then
      p.(so := false, si := true, db := -1, ok := p.ok && !(p.si || p.field))
    else
      // Only the base character set is allowed between SO and SI.
      var bad := p.so && c.cs != CS_BASE;
      var cs := if bad then CS_BASE else c.cs;
      var db := if IsDbcsSet(cs) then if p.db < 0 then b else p.db
                else if !p.so && !p.field then -1 else p.db;
      p.(cells := p.cells[b := c.(cs := cs)], db := db, ok := p.ok && !bad)
  }

  // The mark of the cell at `b`, given the state `q` after classifying it; `siBad` tells whether
  // an SI at `b` was rejected.  A right half that does not complete a valid character turns both
  // halves into spaces.
  function Marked(q: Post, n: nat, b: nat, siBad: bool): (cells: seq<Cell>)
    requires 0 < n <= |q.cells| && b < n && -1 <= q.db < n && -1 <= q.pb < n
    ensures |cells| == |q.cells|
  {
    var c := q.cells[b];
    if c.fa != 0 then
      var cells := q.cells[b := c.(db := DbNone)];
      if q.pb >= 0 && cells[q.pb].db == DbSi then cells[q.pb := cells[q.pb].(db := DbNone)]
      else cells
    else if c.ec == EBC_SO then q.cells[b := c.(db := DbNone)]
    else if c.ec == EBC_SI then q.cells[b := c.(db := if siBad then DbNone else DbSi)]
    else if q.db < 0 then q.cells[b := c.(db := DbNone)]
    else if (b + n - q.db) % 2 == 1 then
      if q.pb >= 0 && !ValidDbcsChar(q.cells[q.pb].ec, c.ec) then
        var cells := q.cells[q.pb := q.cells[q.pb].(ec := EBC_SPACE)];
        cells[b := cells[b].(ec := EBC_SPACE, db := DbRight)]
      else q.cells[b := c.(db := DbRight)]
    else q.cells[b := c.(db := DbLeft)]
  }

  // A left half without a right half is a dead position and becomes a null.
  function IsDead(cells: seq<Cell>, pb: int, b: nat): bool
    requires -1 <= pb < |cells| && b < |cells|
  {
    pb >= 0 && cells[pb].db == DbLeft && cells[b].db != DbRight
  }

  function Killed(cells: seq<Cell>, pb: int, b: nat): (r: seq<Cell>)
    requires -1 <= pb < |cells| && b < |cells|
    ensures |r| == |cells|
  {
    if IsDead(cells, pb, b) then cells[pb := cells[pb].(ec := EBC_NULL, db := DbDead)] else cells
  }

  function AfterSi(cells: seq<Cell>, pb: int, b: nat): (r: seq<Cell>)
    requires -1 <= pb < |cells| && b < |cells|
    ensures |r| == |cells|
  {
    if pb >= 0 && cells[pb].db == DbSi then cells[b := cells[b].(db := DbSb)] else cells
  }

  // One iteration of the pass.
  function PostStep(p: Post, n: nat, b: nat): (r: Post)
    requires PostReady(p, n) && b < n
    ensures PostReady(r, n) && |r.cells| == |p.cells| && r.pb == b
  {
    var q := Classified(p, n, b);
    var marked := Marked(q, n, b, p.si || p.field);
    var dead := IsDead(marked, p.pb, b);
    q.(cells := AfterSi(Killed(marked, p.pb, b), p.pb, b),
       pb := b,
       ok := q.ok && !(dead && p.cells[b].fa == 0))
  }

  // The state after `k` iterations from `b0`.
  function PostAfter(p: Post, n: nat, b0: nat, k: nat): (r: Post)
    requires PostReady(p, n) && b0 < n && k <= n
    ensures PostReady(r, n) && |r.cells| == |p.cells|
    ensures r.pb == if k == 0 then p.pb else At(b0, k - 1, n)
  {
    if k == 0 then p else PostStep(PostAfter(p, n, b0, k - 1), n, At(b0, k - 1, n))
  }

  // The attribute in front of location 0, where the pass starts.
  function PostField(cells: seq<Cell>, n: nat, formatted: bool): (f: int)
    requires 0 < n <= |cells|
    ensures -1 <= f < n
    ensures f >= 0 ==> cells[f].fa != 0
  {
    FindField(cells, n, formatted, 0)
  }

  function PostBegin(f: int, n: nat): (b: nat)
    requires n > 0 && -1 <= f < n
    ensures b < n
  {
    if f < 0 then 0 else Inc(f, n)
  }

  function PostCount(f: int, n: nat): (k: nat)
    requires n > 0 && -1 <= f < n
    ensures 0 < k <= n
  {
    Lap(PostBegin(f, n), if f < 0 then 0 else f, n)
  }

  function PostInit(cells: seq<Cell>, n: nat, f: int): (p: Post)
    requires 0 < n <= |cells| && -1 <= f < n
    ensures PostReady(p, n)
  {
    Post(cells, false, false, f >= 0 && IsDbcsSet(cells[f].cs), -1, -1, true)
  }

  datatype PostResult = PostResult(cells: seq<Cell>, ok: bool)

  function PostProcess(dbcs: bool, cells: seq<Cell>, n: nat, formatted: bool): (r: PostResult)
    requires 0 < n <= |cells|
    ensures |r.cells| == |cells|
    ensures !dbcs ==> r == PostResult(cells, true)
  {
    if !dbcs then PostResult(cells, true)
    else
      var f := PostField(cells, n, formatted);
      var p := PostAfter(PostInit(cells, n, f), n, PostBegin(f, n), PostCount(f, n));
      PostResult(p.cells, p.ok)
  }
}
