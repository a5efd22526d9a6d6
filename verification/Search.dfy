/** The exhaustive window search: column scans, a reduction under any bracketing, the refinement and the threshold. */
module Search {
  import opened Bytes
  import opened Ncc
  import opened Template

  /** Grey screen and grey template, both row by row. */
  datatype Scene = Scene(sRaw: seq<Byte>, sW: nat, sH: nat, tData: seq<Byte>, tW: nat, tH: nat) {
    predicate Valid() {
      |sRaw| == sH * sW && |tData| == tH * tW <= MAX_PIXELS
    }

    function Template(): Gray { Gray(tW, tH, tData) }

    function ScoreAt(x: nat, y: nat): (s: Score)
      requires Valid()
      ensures s.Exact? ==> s.iVar * s.tVar > 0
    {
      var s := Ncc.ScoreAt(sRaw, sW, tData, tW, tH, x, y);
      (if Inside(|sRaw|, sW, x, y, tW, tH) then
         ScoreRange(Window(sRaw, sW, x, y, tW, tH), tData); s
       else s)
    }

    /** The key of the score at every window origin. */
    ghost function Keys(): (nat, nat) -> real
      requires Valid()
    {
      (x: nat, y: nat) => if Valid() then Key(ScoreAt(x, y)) else -1.0
    }
  }

  /** A window origin with the key (signed square) of its score. */
  datatype Candidate = Candidate(key: real, x: nat, y: nat)

  type Best = Option<Candidate>

  /** The left operand wins ties. */
  function Join(a: Best, b: Best): Best {
    match (a, b)
    case (Some(c), Some(d)) => if c.key >= d.key then a else b
    case (Some(_), None) => a
    case (None, _) => b
  }

  function Fold(items: seq<Best>): Best {
    if items == [] then None else Join(Fold(items[..|items| - 1]), items[|items| - 1])
  }

  /** How a parallel run may bracket an ordered sequence: it splits anywhere and may add identities anywhere. */
  datatype Bracketing = Identity | Leaf | Split(left: Bracketing, right: Bracketing) {
    function Leaves(): nat {
      match this
      case Identity => 0
      case Leaf => 1
      case Split(l, r) => l.Leaves() + r.Leaves()
    }

    function Reduce(items: seq<Best>): Best
      requires |items| == Leaves()
    {
      match this
      case Identity => None
      case Leaf => items[0]
      case Split(l, r) => Join(l.Reduce(items[..l.Leaves()]), r.Reduce(items[l.Leaves()..]))
    }
  }

  lemma {:induction false} FoldAppends(a: seq<Best>, b: seq<Best>)
    ensures Fold(a + b) == Join(Fold(a), Fold(b))
  {
    if b == [] {
      assert a + b == a;
    } else {
      var m := |b| - 1;
      FoldAppends(a, b[..m]);
      assert (a + b)[..|a + b| - 1] == a + b[..m];
    }
  }

  /** Every bracketing reduces to the sequential fold. */
  lemma {:induction false} BracketingIrrelevant(shape: Bracketing, items: seq<Best>)
    requires |items| == shape.Leaves()
    ensures shape.Reduce(items) == Fold(items)
  {
    match shape
    case Identity =>
    case Leaf =>
      assert items[..0] == [];
    case Split(l, r) =>
      var a, b := items[..l.Leaves()], items[l.Leaves()..];
      BracketingIrrelevant(l, a);
      BracketingIrrelevant(r, b);
      FoldAppends(a, b);
      assert a + b == items;
  }

  /** An inclusive rectangle of window origins. */
  datatype Range = Range(xLo: nat, xHi: nat, yLo: nat, yHi: nat) {
    predicate Has(x: nat, y: nat) { xLo <= x <= xHi && yLo <= y <= yHi }
  }

  predicate Before(x: nat, y: nat, x': nat, y': nat) { x < x' || (x == x' && y < y') }

  /** The first origin, columns first, among those with the greatest key. */
  ghost predicate FirstGreatest(f: (nat, nat) -> real, r: Range, c: Candidate) {
    && c.key == f(c.x, c.y) && r.Has(c.x, c.y)
    && forall x: nat, y: nat | r.Has(x, y) ::
         && f(x, y) <= c.key
         && (Before(x, y, c.x, c.y) ==> f(x, y) < c.key)
  }

  lemma FirstGreatestUnique(f: (nat, nat) -> real, r: Range, c: Candidate, d: Candidate)
    requires FirstGreatest(f, r, c) && FirstGreatest(f, r, d)
    ensures c == d
  {
    assert f(c.x, c.y) <= f(d.x, d.y) <= f(c.x, c.y);
    assert !Before(c.x, c.y, d.x, d.y) && !Before(d.x, d.y, c.x, c.y);
  }

  /** Joining the best of the columns so far with the best of the next column. */
  lemma JoinColumns(f: (nat, nat) -> real, r: Range, a: Candidate, b: Candidate)
    requires r.xLo < r.xHi
    requires FirstGreatest(f, r.(xHi := r.xHi - 1), a)
    requires FirstGreatest(f, r.(xLo := r.xHi), b)
    ensures Join(Some(a), Some(b)).Some? && FirstGreatest(f, r, Join(Some(a), Some(b)).value)
  {
    var c := Join(Some(a), Some(b)).value;
    var left, right := r.(xHi := r.xHi - 1), r.(xLo := r.xHi);
    forall x: nat, y: nat | r.Has(x, y)
      ensures f(x, y) <= c.key
      ensures Before(x, y, c.x, c.y) ==> f(x, y) < c.key
    {
      assert left.Has(x, y) || right.Has(x, y);
    }
  }

  lemma OneMoreRow(f: (nat, nat) -> real, x: nat, yLo: nat, y: nat, best: Best)
    requires yLo <= y && (best == None <==> y == yLo)
    requires best.Some? ==> FirstGreatest(f, Range(x, x, yLo, y - 1), best.value)
    ensures var c := Candidate(f(x, y), x, y);
            FirstGreatest(f, Range(x, x, yLo, y), if best == None || c.key > best.value.key then c else best.value)
  {
    forall x': nat, y': nat | Range(x, x, yLo, y).Has(x', y') && y' < y
      ensures Range(x, x, yLo, y - 1).Has(x', y')
    {}
  }

  /** The score at one origin, as the key the search compares. */
  method KeyAt(sc: Scene, x: nat, y: nat, tSum: int, tVar: int) returns (key: real)
    requires sc.Valid() && tSum == Sum(sc.tData) && tVar == Var(sc.tData)
    ensures key == sc.Keys()(x, y)
  {
    var score := NccAt(sc.sRaw, sc.sW, sc.tData, sc.tW, sc.tH, x, y, tSum, tVar);
    assert score == sc.ScoreAt(x, y);
    key := Key(score);
  }

  /** One column, top to bottom, keeping the earlier of equal scores. */
  method ScanColumn(sc: Scene, x: nat, yLo: nat, yHi: nat, tSum: int, tVar: int) returns (best: Best)
    requires sc.Valid() && yLo <= yHi && tSum == Sum(sc.tData) && tVar == Var(sc.tData)
    ensures best.Some? && FirstGreatest(sc.Keys(), Range(x, x, yLo, yHi), best.value)
  {
    ghost var f := sc.Keys();
    best := None;
    for y := yLo to yHi + 1
      invariant best == None <==> y == yLo
      invariant best.Some? ==> FirstGreatest(f, Range(x, x, yLo, y - 1), best.value)
    {
      var key := KeyAt(sc, x, y, tSum, tVar);
      OneMoreRow(f, x, yLo, y, best);
      if best == None || key > best.value.key {
        best := Some(Candidate(key, x, y));
      }
    }
  }

  /** The sequential fold of the first columns is their first greatest window. */
  ghost predicate FoldIsFirst(f: (nat, nat) -> real, r: Range, items: seq<Best>) {
    Fold(items).Some? && FirstGreatest(f, r, Fold(items).value)
  }

  lemma FoldOneMore(f: (nat, nat) -> real, r: Range, items: seq<Best>, item: Best)
    requires r.xLo <= r.xHi && item.Some? && FirstGreatest(f, r.(xLo := r.xHi), item.value)
    requires if items == [] then r.xLo == r.xHi else r.xLo < r.xHi && FoldIsFirst(f, r.(xHi := r.xHi - 1), items)
    ensures FoldIsFirst(f, r, items + [item])
  {
    assert (items + [item])[..|items|] == items;
    if items != [] {
      JoinColumns(f, r, Fold(items).value, item.value);
    }
  }

  /** The best windows of the columns so far, as a first greatest window. */
  ghost predicate ColumnsDone(f: (nat, nat) -> real, r: Range, items: seq<Best>, x: nat) {
    |items| == x - r.xLo && (items != [] ==> FoldIsFirst(f, r.(xHi := x - 1), items))
  }

  method AddColumn(sc: Scene, r: Range, items: seq<Best>, x: nat, tSum: int, tVar: int) returns (more: seq<Best>)
    requires sc.Valid() && r.xLo <= x && r.yLo <= r.yHi && tSum == Sum(sc.tData) && tVar == Var(sc.tData)
    requires ColumnsDone(sc.Keys(), r, items, x)
    ensures ColumnsDone(sc.Keys(), r, more, x + 1)
  {
    var item := ScanColumn(sc, x, r.yLo, r.yHi, tSum, tVar);
    FoldOneMore(sc.Keys(), r.(xHi := x), items, item);
    more := items + [item];
  }

  /** The map over the columns, in order. */
  method ScanColumns(sc: Scene, r: Range, tSum: int, tVar: int) returns (items: seq<Best>)
    requires sc.Valid() && r.xLo <= r.xHi && r.yLo <= r.yHi && tSum == Sum(sc.tData) && tVar == Var(sc.tData)
    ensures ColumnsDone(sc.Keys(), r, items, r.xHi + 1)
  {
    items := [];
    for x := r.xLo to r.xHi + 1
      invariant ColumnsDone(sc.Keys(), r, items, x)
    {
      items := AddColumn(sc, r, items, x, tSum, tVar);
    }
  }

  /** The parallel map over the columns and its reduction under the bracketing the pool happened to choose. */
  method SearchRange(sc: Scene, r: Range, shape: Bracketing, tSum: int, tVar: int) returns (best: Best)
    requires sc.Valid() && r.xLo <= r.xHi && r.yLo <= r.yHi && tSum == Sum(sc.tData) && tVar == Var(sc.tData)
    requires shape.Leaves() == r.xHi - r.xLo + 1
    ensures best.Some? && FirstGreatest(sc.Keys(), r, best.value)
  {
    var items := ScanColumns(sc, r, tSum, tVar);
    assert r.(xHi := r.xHi) == r;
    BracketingIrrelevant(shape, items);
    best := shape.Reduce(items);
  }

  /** A clipped search rectangle in pixels. */
  datatype Clip = Clip(x0: nat, y0: nat, x1: nat, y1: nat) {
    predicate Fits(tW: nat, tH: nat) { x0 < x1 && y0 < y1 && tW <= x1 - x0 && tH <= y1 - y0 }
    function Origins(tW: nat, tH: nat): Range
      requires Fits(tW, tH)
    {
      Range(x0, x1 - tW, y0, y1 - tH)
    }
  }

  /** The one-pixel neighbourhood check after the search: it never finds anything better. */
  method Refine(sc: Scene, clip: Clip, best: Candidate, tSum: int, tVar: int) returns (refined: Candidate)
    requires sc.Valid() && clip.Fits(sc.tW, sc.tH) && tSum == Sum(sc.tData) && tVar == Var(sc.tData)
    requires FirstGreatest(sc.Keys(), clip.Origins(sc.tW, sc.tH), best)
    ensures refined == best
  {
    refined := best;
    for dx := -1 to 2
      invariant refined == best
    {
      for dy := -1 to 2
        invariant refined == best
      {
        var nx, ny := best.x + dx, best.y + dy;
        if nx < clip.x0 || ny < clip.y0 {
          continue;
        }
        if nx + sc.tW > clip.x1 || ny + sc.tH > clip.y1 {
          continue;
        }
        var key := KeyAt(sc, nx, ny, tSum, tVar);
        assert clip.Origins(sc.tW, sc.tH).Has(nx, ny);
        var here := Candidate(key, nx, ny);
        if here.key > refined.key {
          refined := here;
        }
      }
    }
  }

  // ---- One match request ----

  type Word = n: nat | n < U32_LIMIT
  datatype Region = Region(x: Word, y: Word, w: Word, h: Word)
  datatype MatchError = TemplateLargerThanScreen | InvalidRegion | Refused(reason: PrepareError) | TemplateTooLargeAfterScaling
  /** `key` is the signed square of the reported score. */
  datatype Match = Match(x: nat, y: nat, width: nat, height: nat, key: real)

  function Min(a: nat, b: nat): nat { if a < b then a else b }

  /** Right and bottom edges are 32-bit sums, so they wrap. */
  function ClipOf(sc: Scene, region: Option<Region>): Clip {
    match region
    case Some(r) => Clip(r.x, r.y, Min((r.x + r.w) % U32_LIMIT, sc.sW), Min((r.y + r.h) % U32_LIMIT, sc.sH))
    case None => Clip(0, 0, sc.sW, sc.sH)
  }

  datatype Request = Request(region: Option<Region>, threshold: Option<real>, color: bool, colorOk: (nat, nat) -> bool) {
    function Threshold(): real { if threshold.Some? then threshold.value else 0.8 }
    predicate Accepts(key: real, x: nat, y: nat) {
      key >= SignedSquare(Threshold()) && (color ==> colorOk(x, y))
    }
  }

  /** Where a search takes place: grey screen and template, and how positions get there and back. */
  datatype View = View(scene: Scene, down: nat -> nat, up: nat -> nat) {
    /** The clip in the view, cut off at its edges against rounding. */
    function ClipIn(clip: Clip): Clip {
      Clip(down(clip.x0), down(clip.y0), Min(down(clip.x1), scene.sW), Min(down(clip.y1), scene.sH))
    }

    function MatchAt(c: Candidate): Match { Match(up(c.x), up(c.y), up(scene.tW), up(scene.tH), c.key) }
  }

  /** The search runs on the screen as it is: a region was given, or the screen is at most 540 pixels each way. */
  predicate Unscaled(sc: Scene, req: Request) {
    req.region.Some? || (sc.sW <= 540 && sc.sH <= 540)
  }

  /** `small` is the view scaled down to 540 pixels. */
  function ViewOf(sc: Scene, req: Request, small: View): View {
    if Unscaled(sc, req) then View(sc, (n: nat) => n, (n: nat) => n) else small
  }

  // ---- What a request must answer ----

  /** A set of window origins. */
  type Area = (nat, nat) -> bool

  /** A window wholly on the screen and inside the region, if there is one. */
  predicate InRegion(sc: Scene, region: Option<Region>, x: nat, y: nat) {
    && x + sc.tW <= sc.sW && y + sc.tH <= sc.sH
    && (region.Some? ==>
          && region.value.x <= x && x + sc.tW <= region.value.x + region.value.w
          && region.value.y <= y && y + sc.tH <= region.value.y + region.value.h)
  }

  /** The part of the region on the screen is not empty, and not smaller than the template. A region whose edge is no
      32-bit number has none. */
  predicate HasRoom(sc: Scene, region: Option<Region>) {
    match region
    case None => true
    case Some(r) =>
      && r.x + r.w < U32_LIMIT && r.x < r.x + r.w && r.x < sc.sW && r.x + sc.tW <= r.x + r.w && r.x + sc.tW <= sc.sW
      && r.y + r.h < U32_LIMIT && r.y < r.y + r.h && r.y < sc.sH && r.y + sc.tH <= r.y + r.h && r.y + sc.tH <= sc.sH
  }

  function RegionArea(sc: Scene, region: Option<Region>): Area { (x: nat, y: nat) => InRegion(sc, region, x, y) }

  /** A scaled screen is searched between the images of its corners, and within the scaled screen. */
  function ScaledArea(sc: Scene, v: View): Area {
    (x: nat, y: nat) =>
      && v.down(0) <= x && x + v.scene.tW <= v.down(sc.sW) && x + v.scene.tW <= v.scene.sW
      && v.down(0) <= y && y + v.scene.tH <= v.down(sc.sH) && y + v.scene.tH <= v.scene.sH
  }

  /** The first origin of the area, columns first, among those with the greatest key. */
  ghost predicate FirstOf(f: (nat, nat) -> real, area: Area, x: nat, y: nat) {
    && area(x, y)
    && forall x': nat, y': nat | area(x', y') ::
         && f(x', y') <= f(x, y)
         && (Before(x', y', x, y) ==> f(x', y') < f(x, y))
  }

  /** What a request must answer, whatever the order of evaluation. */
  ghost predicate Answers(sc: Scene, req: Request, small: View, r: Result<Option<Match>, MatchError>)
    requires sc.Valid() && small.scene.Valid()
  {
    if sc.tW >= sc.sW || sc.tH >= sc.sH then r == Err(TemplateLargerThanScreen)
    else if !HasRoom(sc, req.region) then r == Err(InvalidRegion)
    else if req.region == None && (sc.sW > 540 || sc.sH > 540) then AnswersIn(small.scene, small.up, ScaledArea(sc, small), req, r)
    else AnswersIn(sc, (n: nat) => n, RegionArea(sc, req.region), req, r)
  }

  ghost predicate AnswersIn(sc: Scene, up: nat -> nat, area: Area, req: Request, r: Result<Option<Match>, MatchError>)
    requires sc.Valid()
  {
    if sc.tData == [] then r == Err(Refused(TemplateEmpty))
    else if Uniform(sc.tData) then r == Err(Refused(TemplateUniform))
    else if sc.tW >= sc.sW || sc.tH >= sc.sH then r == Err(TemplateTooLargeAfterScaling)
    else if forall x: nat, y: nat :: !area(x, y) then r == Ok(None)
    else exists x: nat, y: nat :: IsAnswer(sc, up, area, req, x, y, r)
  }

  /** The first greatest window, if it reaches the threshold and has the colours asked for. */
  ghost predicate IsAnswer(sc: Scene, up: nat -> nat, area: Area, req: Request, x: nat, y: nat, r: Result<Option<Match>, MatchError>)
    requires sc.Valid()
  {
    var key := sc.Keys()(x, y);
    && FirstOf(sc.Keys(), area, x, y)
    && r == Ok(if req.Accepts(key, x, y) then Some(Match(up(x), up(y), up(sc.tW), up(sc.tH), key)) else None)
  }

  /** The origins of a clip are an area. */
  ghost predicate Covers(clip: Clip, sc: Scene, area: Area) {
    (sc.tW > 0 && sc.tH > 0 ==> (clip.Fits(sc.tW, sc.tH) <==> exists x: nat, y: nat :: area(x, y)))
    && (clip.Fits(sc.tW, sc.tH) ==> forall x: nat, y: nat :: clip.Origins(sc.tW, sc.tH).Has(x, y) <==> area(x, y))
  }

  /** A right or bottom edge that wraps lies before the left or top one. */
  lemma WrappedEdge(a: Word, b: Word)
    ensures (a + b) % U32_LIMIT == if a + b < U32_LIMIT then a + b else a + b - U32_LIMIT
  {}

  lemma ClipIsRegion(sc: Scene, region: Option<Region>)
    requires sc.tW < sc.sW && sc.tH < sc.sH
    ensures ClipOf(sc, region).Fits(sc.tW, sc.tH) <==> HasRoom(sc, region)
    ensures HasRoom(sc, region) ==> Covers(ClipOf(sc, region), sc, RegionArea(sc, region))
  {
    if region.Some? {
      WrappedEdge(region.value.x, region.value.w);
      WrappedEdge(region.value.y, region.value.h);
    }
    if HasRoom(sc, region) {
      var clip := ClipOf(sc, region);
      assert RegionArea(sc, region)(clip.x0, clip.y0);
    }
  }

  lemma ClipIsScaled(sc: Scene, v: View)
    ensures Covers(v.ClipIn(Clip(0, 0, sc.sW, sc.sH)), v.scene, ScaledArea(sc, v))
  {
    var clip, area := v.ClipIn(Clip(0, 0, sc.sW, sc.sH)), ScaledArea(sc, v);
    if clip.Fits(v.scene.tW, v.scene.tH) {
      assert area(clip.x0, clip.y0);
    }
  }

  lemma FirstIn(f: (nat, nat) -> real, r: Range, area: Area, c: Candidate)
    requires FirstGreatest(f, r, c) && forall x: nat, y: nat :: r.Has(x, y) <==> area(x, y)
    ensures FirstOf(f, area, c.x, c.y) && c.key == f(c.x, c.y)
  {}

  /** The area the answer is about. */
  ghost function AreaOf(sc: Scene, req: Request, small: View): Area {
    if Unscaled(sc, req) then RegionArea(sc, req.region) else ScaledArea(sc, small)
  }

  lemma CoversArea(sc: Scene, req: Request, small: View)
    requires sc.tW < sc.sW && sc.tH < sc.sH && HasRoom(sc, req.region)
    ensures var v := ViewOf(sc, req, small);
            Covers(v.ClipIn(ClipOf(sc, req.region)), v.scene, AreaOf(sc, req, small))
  {
    var v := ViewOf(sc, req, small);
    if Unscaled(sc, req) {
      ClipIsRegion(sc, req.region);
      assert v.ClipIn(ClipOf(sc, req.region)) == ClipOf(sc, req.region);
    } else {
      ClipIsScaled(sc, small);
    }
  }

  lemma Answered(sc: Scene, req: Request, small: View, r: Result<Option<Match>, MatchError>)
    requires sc.Valid() && small.scene.Valid() && sc.tW < sc.sW && sc.tH < sc.sH && HasRoom(sc, req.region)
    ensures var v := ViewOf(sc, req, small);
            Answers(sc, req, small, r) <==> AnswersIn(v.scene, v.up, AreaOf(sc, req, small), req, r)
  {
    var v, area := ViewOf(sc, req, small), AreaOf(sc, req, small);
    if Unscaled(sc, req) {
      assert v.scene == sc && v.up == ((n: nat) => n) && area == RegionArea(sc, req.region);
    } else {
      assert v == small && area == ScaledArea(sc, small);
    }
  }

  method MatchTemplate(sc: Scene, req: Request, small: View, shape: Bracketing) returns (r: Result<Option<Match>, MatchError>)
    requires sc.Valid() && small.scene.Valid()
    requires var v := ViewOf(sc, req, small);
             var clip := v.ClipIn(ClipOf(sc, req.region));
             clip.Fits(v.scene.tW, v.scene.tH) ==> shape.Leaves() == clip.x1 - v.scene.tW - clip.x0 + 1
    ensures Answers(sc, req, small, r)
  {
    if sc.tW >= sc.sW || sc.tH >= sc.sH {
      return Err(TemplateLargerThanScreen);
    }
    ClipIsRegion(sc, req.region);
    var region := ClipOf(sc, req.region);
    if !region.Fits(sc.tW, sc.tH) {
      return Err(InvalidRegion);
    }
    var v := ViewOf(sc, req, small);
    CoversArea(sc, req, small);
    r := MatchIn(v, region, AreaOf(sc, req, small), req, shape);
    Answered(sc, req, small, r);
  }

  /** The part of a match after its view is known. */
  method MatchIn(v: View, region: Clip, ghost area: Area, req: Request, shape: Bracketing)
    returns (r: Result<Option<Match>, MatchError>)
    requires v.scene.Valid() && Covers(v.ClipIn(region), v.scene, area)
    requires var clip := v.ClipIn(region);
             clip.Fits(v.scene.tW, v.scene.tH) ==> shape.Leaves() == clip.x1 - v.scene.tW - clip.x0 + 1
    ensures AnswersIn(v.scene, v.up, area, req, r)
  {
    var prepared := BuildPrepared(v.scene.Template());
    BuildRefusesUniform(v.scene.Template());
    if prepared.Err? {
      return Err(Refused(prepared.error));
    }
    if v.scene.tW >= v.scene.sW || v.scene.tH >= v.scene.sH {
      return Err(TemplateTooLargeAfterScaling);
    }
    var clip := v.ClipIn(region);
    HasPixels(v.scene);
    if !clip.Fits(v.scene.tW, v.scene.tH) {
      return Ok(None);
    }
    var tSum, tVar := prepared.value.sum, prepared.value.variance;
    var origins := clip.Origins(v.scene.tW, v.scene.tH);
    var best := SearchRange(v.scene, origins, shape, tSum, tVar);
    var c := Refine(v.scene, clip, best.value, tSum, tVar);
    FirstIn(v.scene.Keys(), origins, area, c);
    var colorOk := if req.color then req.colorOk(c.x, c.y) else true;
    r := Ok(if c.key < SignedSquare(req.Threshold()) || !colorOk then None else Some(v.MatchAt(c)));
    assert IsAnswer(v.scene, v.up, area, req, c.x, c.y, r);
  }

  lemma HasPixels(sc: Scene)
    requires sc.Valid() && sc.tData != []
    ensures sc.tW > 0 && sc.tH > 0
  {}

  /** The answer does not depend on how the search was parallelised. */
  lemma AnswerUnique(sc: Scene, req: Request, small: View, r: Result<Option<Match>, MatchError>, r': Result<Option<Match>, MatchError>)
    requires sc.Valid() && small.scene.Valid() && Answers(sc, req, small, r) && Answers(sc, req, small, r')
    ensures r == r'
  {
    if sc.tW < sc.sW && sc.tH < sc.sH && HasRoom(sc, req.region) {
      var v := ViewOf(sc, req, small);
      Answered(sc, req, small, r);
      Answered(sc, req, small, r');
      AnswerInUnique(v.scene, v.up, AreaOf(sc, req, small), req, r, r');
    }
  }

  lemma AnswerInUnique(sc: Scene, up: nat -> nat, area: Area, req: Request,
                       r: Result<Option<Match>, MatchError>, r': Result<Option<Match>, MatchError>)
    requires sc.Valid() && AnswersIn(sc, up, area, req, r) && AnswersIn(sc, up, area, req, r')
    ensures r == r'
  {
    if sc.tData != [] && !Uniform(sc.tData) && sc.tW < sc.sW && sc.tH < sc.sH && exists x: nat, y: nat :: area(x, y) {
      var x: nat, y: nat :| IsAnswer(sc, up, area, req, x, y, r);
      var x': nat, y': nat :| IsAnswer(sc, up, area, req, x', y', r');
      assert !Before(x, y, x', y') && !Before(x', y', x, y);
    }
  }

  /** A window wholly on the screen is inside the raw data. */
  lemma InsideScreen(sc: Scene, x: nat, y: nat)
    requires sc.Valid() && x + sc.tW <= sc.sW && y + sc.tH <= sc.sH && sc.tW > 0
    ensures Inside(|sc.sRaw|, sc.sW, x, y, sc.tW, sc.tH)
  {
    QuotientOfProduct(sc.sH, sc.sW);
  }

  lemma QuotientOfProduct(a: nat, b: nat)
    requires b > 0
    ensures (a * b) / b == a
  {
    var q: int, r: int := (a * b) / b, (a * b) % b;
    assert (a - q) * b == r;
    if a - q >= 1 {
      MultipleAtLeast(a - q, b);
      assert false;
    } else if q - a >= 1 {
      MultipleAtLeast(q - a, b);
      assert false;
    }
  }

  lemma MultipleAtLeast(k: int, b: int)
    requires k >= 1 && b > 0
    ensures k * b >= b
  {}

  /** The grey levels of the template stand at (x, y) of the screen, pixel by pixel. */
  ghost predicate PlantedAt(sc: Scene, x: nat, y: nat)
    requires sc.Valid()
  {
    && x + sc.tW <= sc.sW && y + sc.tH <= sc.sH
    && forall i: nat, j: nat | i < sc.tW && j < sc.tH :: SamePixel(sc, x, y, i, j)
  }

  predicate SamePixel(sc: Scene, x: nat, y: nat, i: nat, j: nat)
    requires sc.Valid() && x + sc.tW <= sc.sW && y + sc.tH <= sc.sH && i < sc.tW && j < sc.tH
  {
    PixelOf(sc.sRaw, sc.sW, sc.sH, x + i, y + j) == PixelOf(sc.tData, sc.tW, sc.tH, i, j)
  }

  /** Images are stored row by row. */
  function PixelOf(raw: seq<Byte>, w: nat, h: nat, x: nat, y: nat): Byte
    requires |raw| == h * w && x < w && y < h
  {
    RowBefore(y, h, w);
    raw[y * w + x]
  }

  lemma PlantedPixel(sc: Scene, x: nat, y: nat, i: nat, j: nat, at: nat, tAt: nat)
    requires sc.Valid() && PlantedAt(sc, x, y) && i < sc.tW && j < sc.tH && at == (y + j) * sc.sW + x && tAt == j * sc.tW
    requires at + sc.tW <= |sc.sRaw| && tAt + sc.tW <= |sc.tData|
    ensures sc.sRaw[at + i] == sc.tData[tAt + i]
  {
    assert SamePixel(sc, x, y, i, j);
  }

  lemma PlantedRow(sc: Scene, x: nat, y: nat, j: nat, at: nat, tAt: nat)
    requires sc.Valid() && PlantedAt(sc, x, y) && j < sc.tH && at == (y + j) * sc.sW + x && tAt == j * sc.tW
    ensures at + sc.tW <= |sc.sRaw| && tAt + sc.tW <= |sc.tData|
    ensures sc.sRaw[at..at + sc.tW] == sc.tData[tAt..tAt + sc.tW]
  {
    RowBefore(j, sc.tH, sc.tW);
    RowBefore(y + j, sc.sH, sc.sW);
    var a, b := sc.sRaw[at..at + sc.tW], sc.tData[tAt..tAt + sc.tW];
    forall i: nat | i < sc.tW
      ensures a[i] == b[i]
    {
      PlantedPixel(sc, x, y, i, j, at, tAt);
    }
    SameByIndex(a, b);
  }

  lemma SameByIndex(a: seq<Byte>, b: seq<Byte>)
    requires |a| == |b| && forall i :: 0 <= i < |a| ==> a[i] == b[i]
    ensures a == b
  {}

  lemma PrefixGrows(t: seq<Byte>, w: seq<Byte>, row: seq<Byte>, i: nat, j: nat)
    requires i <= j <= |t| && w == t[..i] && row == t[i..j]
    ensures w + row == t[..j]
  {}

  lemma PlantedRows(sc: Scene, x: nat, y: nat, j: nat, at: nat, i: nat, w: seq<Byte>)
    requires sc.Valid() && PlantedAt(sc, x, y) && j < sc.tH && at == (y + j) * sc.sW + x && i == j * sc.tW
    requires i <= |sc.tData| && w == sc.tData[..i]
    ensures at + sc.tW <= |sc.sRaw| && i + sc.tW <= |sc.tData|
    ensures w + sc.sRaw[at..at + sc.tW] == sc.tData[..i + sc.tW]
  {
    PlantedRow(sc, x, y, j, at, i);
    PrefixGrows(sc.tData, w, sc.sRaw[at..at + sc.tW], i, i + sc.tW);
  }

  lemma {:induction false} PlantedWindow(sc: Scene, x: nat, y: nat, rows: nat, n: nat)
    requires sc.Valid() && PlantedAt(sc, x, y) && rows <= sc.tH && n == rows * sc.tW
    requires Inside(|sc.sRaw|, sc.sW, x, y, sc.tW, rows)
    ensures n <= |sc.tData| && Window(sc.sRaw, sc.sW, x, y, sc.tW, rows) == sc.tData[..n]
  {
    if rows > 0 {
      var j: nat, i: nat, at: nat := rows - 1, (rows - 1) * sc.tW, (y + rows - 1) * sc.sW + x;
      RowWithin(j, sc.tH, sc.tW);
      PlantedWindow(sc, x, y, j, i);
      PlantedRows(sc, x, y, j, at, i, Window(sc.sRaw, sc.sW, x, y, sc.tW, j));
      WindowGrows(sc.sRaw, sc.sW, x, y, sc.tW, j, at);
    }
  }

  lemma PlantedScoresOne(sc: Scene, x: nat, y: nat)
    requires sc.Valid() && PlantedAt(sc, x, y) && !Uniform(sc.tData)
    ensures sc.Keys()(x, y) == 1.0
  {
    HasPixels(sc);
    InsideScreen(sc, x, y);
    PlantedWindow(sc, x, y, sc.tH, |sc.tData|);
    assert sc.tData[..|sc.tData|] == sc.tData;
    ExactCopyScoresOne(sc.tData);
  }

  /** A place where a match is reported from: in the area, with a score of 1, on a positive recolouring of the template. */
  ghost predicate PerfectAt(s: Scene, area: Area, x: nat, y: nat)
    requires s.Valid()
  {
    && area(x, y) && Key(s.ScoreAt(x, y)) == 1.0
    && Inside(|s.sRaw|, s.sW, x, y, s.tW, s.tH)
    && PositiveRecolouring(Window(s.sRaw, s.sW, x, y, s.tW, s.tH), s.tData)
    && !Uniform(Window(s.sRaw, s.sW, x, y, s.tW, s.tH))
  }

  /** No area leaves the screen. */
  ghost predicate OnScreen(s: Scene, area: Area) {
    forall x: nat, y: nat | area(x, y) :: x + s.tW <= s.sW && y + s.tH <= s.sH
  }

  /** In the view that is searched: a template of more than one colour, smaller than the screen and standing anywhere
      in the area, is reported with score 1, from a place in the area where a positive recolouring of it stands. */
  lemma PlantedTemplateIsFound(s: Scene, up: nat -> nat, area: Area, req: Request, px: nat, py: nat, r: Result<Option<Match>, MatchError>)
    returns (x: nat, y: nat)
    requires s.Valid() && s.tW < s.sW && s.tH < s.sH && !Uniform(s.tData) && OnScreen(s, area)
    requires !req.color && req.Threshold() <= 1.0
    requires area(px, py) && PlantedAt(s, px, py)
    requires AnswersIn(s, up, area, req, r)
    ensures PerfectAt(s, area, x, y) && r == Ok(Some(Match(up(x), up(y), up(s.tW), up(s.tH), 1.0)))
  {
    x, y :| IsAnswer(s, up, area, req, x, y, r);
    PlantedScoresOne(s, px, py);
    HasPixels(s);
    InsideScreen(s, x, y);
    ScoreRange(Window(s.sRaw, s.sW, x, y, s.tW, s.tH), s.tData);
    SignedSquareOrder(1.0, req.Threshold());
    SignedSquareOrder(req.Threshold(), 1.0);
  }

  /** On the screen itself nothing is scaled: the reported place is where the recolouring stands, inside the region and
      the screen. */
  lemma PlantedInRegionIsFound(sc: Scene, req: Request, small: View, px: nat, py: nat, r: Result<Option<Match>, MatchError>)
    requires sc.Valid() && small.scene.Valid() && Unscaled(sc, req) && sc.tW < sc.sW && sc.tH < sc.sH && !Uniform(sc.tData)
    requires !req.color && req.Threshold() <= 1.0
    requires HasRoom(sc, req.region) && InRegion(sc, req.region, px, py) && PlantedAt(sc, px, py)
    requires Answers(sc, req, small, r)
    ensures r.Ok? && r.value.Some?
    ensures var m := r.value.value;
            && InRegion(sc, req.region, m.x, m.y) && m.width == sc.tW && m.height == sc.tH && m.key == 1.0
            && Inside(|sc.sRaw|, sc.sW, m.x, m.y, sc.tW, sc.tH)
            && PositiveRecolouring(Window(sc.sRaw, sc.sW, m.x, m.y, sc.tW, sc.tH), sc.tData)
  {
    var x, y := PlantedTemplateIsFound(sc, (n: nat) => n, RegionArea(sc, req.region), req, px, py, r);
  }

  lemma PerfectAnswer(s: Scene, up: nat -> nat, area: Area, req: Request, r: Result<Option<Match>, MatchError>) returns (x: nat, y: nat)
    requires s.Valid() && OnScreen(s, area) && req.Threshold() >= 1.0
    requires AnswersIn(s, up, area, req, r) && r.Ok? && r.value.Some?
    ensures PerfectAt(s, area, x, y) && r.value.value == Match(up(x), up(y), up(s.tW), up(s.tH), 1.0)
  {
    x, y :| IsAnswer(s, up, area, req, x, y, r);
    HasPixels(s);
    InsideScreen(s, x, y);
    ScoreRange(Window(s.sRaw, s.sW, x, y, s.tW, s.tH), s.tData);
    SignedSquareOrder(req.Threshold(), 1.0);
  }

  /** Conversely a match at threshold 1 is always reported from a positive recolouring of the template, never from a flat
      window. */
  lemma PerfectMatchIsRecolouring(sc: Scene, req: Request, small: View, r: Result<Option<Match>, MatchError>) returns (x: nat, y: nat)
    requires sc.Valid() && small.scene.Valid() && req.Threshold() >= 1.0
    requires Answers(sc, req, small, r) && r.Ok? && r.value.Some?
    ensures var v := ViewOf(sc, req, small);
            PerfectAt(v.scene, AreaOf(sc, req, small), x, y) && r.value.value == v.MatchAt(Candidate(1.0, x, y))
  {
    var v, area := ViewOf(sc, req, small), AreaOf(sc, req, small);
    Answered(sc, req, small, r);
    x, y := PerfectAnswer(v.scene, v.up, area, req, r);
  }

  /** A request without a threshold asks for a score of 0.8, which is a key of 0.64. */
  lemma DefaultThreshold(sc: Scene, req: Request, small: View, r: Result<Option<Match>, MatchError>)
    requires sc.Valid() && small.scene.Valid() && req.threshold == None
    requires Answers(sc, req, small, r) && r.Ok? && r.value.Some?
    ensures r.value.value.key >= 0.64
  {
    var v := ViewOf(sc, req, small);
    Answered(sc, req, small, r);
  }
}
