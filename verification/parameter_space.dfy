/**
  The parameter-consistency engine of the dark-matter mediator model
  (ParameterSpace.py). A point holds a mediator mass, a dark-matter mass, a
  visible coupling and a top mass, plus three quantities of which any subset
  may be given: the dark coupling g, the total width and the invisible
  branching ratio. `CalculateAll` derives the missing ones from closed-form
  partial widths and rejects a derived value that disagrees with a given one.
 */
module Parameters {
  import opened Results
  import opened RealMath

  /** The seven attributes of a point, as named by their setters. */
  datatype Field =
    | MediatorMass | DarkMatterMass | VisibleCoupling | DarkCoupling
    | TotalWidth | BranchingRatio | TopMass

  /** Every way a derivation ends the program. */
  datatype Error =
    | ZeroDivision                 // float division by zero
    | MathDomain                   // square root of a negative number
    | NameError                    // the unqualified call to calculate_g
    | NoDrivingParameter           // invisible width with nothing to derive it from
    | NoWidthOrBranchingRatio      // coupling with neither width nor ratio given
    | NegativeCouplingSquared
    | Inconsistent(field: Field, preset: real, computed: real)

  /** `None` is the NaN the original uses for "unset". */
  datatype ParameterSpace = ParameterSpace(
    mV: real, mDM: real, aR: real,
    g: Option<real>, gTot: Option<real>, br: Option<real>,
    mTop: real)

  /** A freshly constructed point: masses and coupling zero, top mass 172 GeV. */
  const Initial: ParameterSpace := ParameterSpace(0.0, 0.0, 0.0, None, None, None, 172.0)

  function Get(p: ParameterSpace, f: Field): Option<real> {
    match f
    case MediatorMass => Some(p.mV)
    case DarkMatterMass => Some(p.mDM)
    case VisibleCoupling => Some(p.aR)
    case DarkCoupling => p.g
    case TotalWidth => p.gTot
    case BranchingRatio => p.br
    case TopMass => Some(p.mTop)
  }

  /** The setters: the field takes the value, nothing else changes. */
  function Set(p: ParameterSpace, f: Field, v: real): (q: ParameterSpace)
    ensures Get(q, f) == Some(v)
    ensures forall f' :: f' != f ==> Get(q, f') == Get(p, f')
  {
    match f
    case MediatorMass => p.(mV := v)
    case DarkMatterMass => p.(mDM := v)
    case VisibleCoupling => p.(aR := v)
    case DarkCoupling => p.(g := Some(v))
    case TotalWidth => p.(gTot := Some(v))
    case BranchingRatio => p.(br := Some(v))
    case TopMass => p.(mTop := v)
  }

  /** Some quantity a derivation could start from is given. */
  predicate HasDriver(p: ParameterSpace) {
    p.g.Some? || p.gTot.Some? || p.br.Some?
  }

  predicate Resolved(p: ParameterSpace) {
    p.g.Some? && p.gTot.Some? && p.br.Some?
  }

  /** mV, mDM, a_r and m_top agree: derivations never touch these. */
  predicate SameInputs(p: ParameterSpace, q: ParameterSpace) {
    p.mV == q.mV && p.mDM == q.mDM && p.aR == q.aR && p.mTop == q.mTop
  }

  // ---------------------------------------------------------------------------
  // Canonical name

  /** One printf field of the name: a tag and a value shown with `decimals` places. */
  datatype NameToken = NameToken(tag: string, decimals: nat, value: real)

  /**
    `parameter_space_name`: mV, mDM and a_r, then the first set one of BR,
    g and the total width, in that priority.
   */
  function Name(p: ParameterSpace): (name: seq<NameToken>)
    ensures |name| == (if HasDriver(p) then 4 else 3)
    ensures name[0] == NameToken("mV", 0, p.mV)
    ensures name[1] == NameToken("_mDM", 0, p.mDM)
    ensures name[2] == NameToken("_a_r", 1, p.aR)
    ensures p.br.Some? ==> name[3] == NameToken("_BR", 2, p.br.value)
    ensures p.br.None? && p.g.Some? ==> name[3] == NameToken("_g", 2, p.g.value)
    ensures p.br.None? && p.g.None? && p.gTot.Some? ==> name[3] == NameToken("_G_tot", 2, p.gTot.value)
  {
    var base := [NameToken("mV", 0, p.mV), NameToken("_mDM", 0, p.mDM), NameToken("_a_r", 1, p.aR)];
    if p.br.Some? then base + [NameToken("_BR", 2, p.br.value)]
    else if p.g.Some? then base + [NameToken("_g", 2, p.g.value)]
    else if p.gTot.Some? then base + [NameToken("_G_tot", 2, p.gTot.value)]
    else base
  }

  // ---------------------------------------------------------------------------
  // Kinematics and partial widths

  /** Multiplying both sides by a positive factor keeps order and equality. */
  lemma ScaleCompare(x: real, y: real, c: real)
    requires c > 0.0
    ensures x <= y <==> x * c <= y * c
    ensures x == y <==> x * c == y * c
  {
    if x <= y {
      MulNonNegative(y - x, c);
    } else {
      MulPositive(x - y, c);
    }
    if x * c == y * c {
      ZeroProduct(x - y, c);
    }
  }

  /** A ratio r = a / b compares with 1/2 as a does with b/2, in squares. */
  lemma RatioSquares(r: real, a: real, b: real, k: real)
    requires b != 0.0 && r * b == a
    requires k > 0.0
    ensures k * (r * r) <= 1.0 <==> k * (a * a) <= b * b
    ensures k * (r * r) == 1.0 <==> k * (a * a) == b * b
  {
    var c := b * b;
    if c == 0.0 {
      ZeroProduct(b, b);
    }
    SquareNonNegative(b);
    assert a * a == (r * r) * c;
    ScaleCompare(k * (r * r), 1.0, c);
  }

  /** Python's float division: ZeroDivisionError for a zero divisor. */
  function Divide(x: real, y: real): (r: Result<real, Error>)
    ensures r.Ok? <==> y != 0.0
    ensures r.Err? ==> r.error == ZeroDivision
    ensures r.Ok? ==> r.value * y == x
  {
    if y == 0.0 then Err(ZeroDivision) else Ok(x / y)
  }

  /** The visible phase-space polynomial is (1 - u)^2 (2 + u) / 2 in u = r_t^2. */
  lemma VisiblePhaseSpaceShape(rt: real)
    ensures var u := rt * rt;
      var phi := (1.0 - u) * (1.0 - 0.5 * u - 0.5 * (u * u));
      phi >= 0.0 && (phi == 0.0 <==> u == 1.0)
  {
    var u := rt * rt;
    SquareNonNegative(rt);
    assert (1.0 - u) * (1.0 - 0.5 * u - 0.5 * (u * u)) == (1.0 - u) * (1.0 - u) * (2.0 + u) / 2.0;
    SquareNonNegative(1.0 - u);
    MulNonNegative((1.0 - u) * (1.0 - u), 2.0 + u);
    if (1.0 - u) * (1.0 - u) * (2.0 + u) == 0.0 {
      ZeroProduct((1.0 - u) * (1.0 - u), 2.0 + u);
      ZeroProduct(1.0 - u, 1.0 - u);
    }
  }

  /**
    phi_vis as a function of the masses. Never negative; it vanishes exactly
    where the top mass equals the mediator mass.
   */
  function VisiblePhaseSpace(mV: real, mTop: real): (r: Result<real, Error>)
    ensures r.Ok? <==> mV != 0.0
    ensures r.Err? ==> r.error == ZeroDivision
    ensures r.Ok? ==> r.value >= 0.0
    ensures r.Ok? ==> (r.value == 0.0 <==> mTop * mTop == mV * mV)
  {
    var rt :- Divide(mTop, mV);
    VisiblePhaseSpaceShape(rt);
    RatioSquares(rt, mTop, mV, 1.0);
    Ok((1.0 - rt * rt) * (1.0 - 0.5 * (rt * rt) - 0.5 * (rt * rt * rt * rt)))
  }

  lemma InvisiblePhaseSpaceShape(m: MathLib, rc: real)
    requires m.Valid()
    requires 1.0 - 4.0 * (rc * rc) >= 0.0
    ensures var phi := m.sqrt(1.0 - 4.0 * (rc * rc)) * (1.0 + 2.0 * (rc * rc));
      phi >= 0.0 && (phi == 0.0 <==> 1.0 - 4.0 * (rc * rc) == 0.0)
  {
    var arg := 1.0 - 4.0 * (rc * rc);
    var root := m.sqrt(arg);
    SqrtZero(m, arg);
    SquareNonNegative(rc);
    MulNonNegative(root, 1.0 + 2.0 * (rc * rc));
    if root * (1.0 + 2.0 * (rc * rc)) == 0.0 {
      ZeroProduct(root, 1.0 + 2.0 * (rc * rc));
    }
  }

  /**
    phi_invis as a function of the masses. Defined only up to the
    pair-production threshold 4 mDM^2 <= mV^2; never negative, and zero
    exactly at the threshold.
   */
  function InvisiblePhaseSpace(m: MathLib, mV: real, mDM: real): (r: Result<real, Error>)
    requires m.Valid()
    ensures r.Ok? <==> mV != 0.0 && 4.0 * (mDM * mDM) <= mV * mV
    ensures r.Err? ==> r.error == (if mV == 0.0 then ZeroDivision else MathDomain)
    ensures r.Ok? ==> r.value >= 0.0
    ensures r.Ok? ==> (r.value == 0.0 <==> 4.0 * (mDM * mDM) == mV * mV)
  {
    var rc :- Divide(mDM, mV);
    RatioSquares(rc, mDM, mV, 4.0);
    var arg := 1.0 - 4.0 * (rc * rc);
    if arg < 0.0 then Err(MathDomain)
    else
      InvisiblePhaseSpaceShape(m, rc);
      Ok(m.sqrt(arg) * (1.0 + 2.0 * (rc * rc)))
  }

  lemma VisibleWidthShape(m: MathLib, mV: real, aR: real, mTop: real, phi: real)
    requires m.Valid()
    requires VisiblePhaseSpace(mV, mTop) == Ok(phi)
    ensures var w := aR * aR * (mV / m.pi) * phi;
      && (mV > 0.0 ==> w >= 0.0)
      && (w == 0.0 <==> aR == 0.0 || mTop * mTop == mV * mV)
  {
    var k := mV / m.pi;
    assert k * m.pi == mV;
    if mV > 0.0 {
      assert k > 0.0;
      SquareNonNegative(aR);
      MulNonNegative(aR * aR, k);
      MulNonNegative(aR * aR * k, phi);
    }
    if aR * aR * k * phi == 0.0 {
      ZeroProduct(aR * aR * k, phi);
      if aR * aR * k == 0.0 {
        ZeroProduct(aR * aR, k);
        if aR * aR == 0.0 {
          ZeroProduct(aR, aR);
        }
      }
    }
  }

  /**
    G_vis as a function of the inputs. Zero exactly when a_r vanishes or the
    top mass equals the mediator mass; never negative for a positive mass.
   */
  function VisibleWidth(m: MathLib, mV: real, aR: real, mTop: real): (r: Result<real, Error>)
    requires m.Valid()
    ensures r.Ok? <==> mV != 0.0
    ensures r.Err? ==> r.error == ZeroDivision
    ensures r.Ok? && mV > 0.0 ==> r.value >= 0.0
    ensures r.Ok? ==> (r.value == 0.0 <==> aR == 0.0 || mTop * mTop == mV * mV)
  {
    var phi :- VisiblePhaseSpace(mV, mTop);
    VisibleWidthShape(m, mV, aR, mTop, phi);
    Ok(VisibleWidthOf(m, mV, aR, phi))
  }

  /** The visible width for a given phi_vis: a_r^2 mV / pi phi_vis. */
  function VisibleWidthOf(m: MathLib, mV: real, aR: real, phiVis: real): real
    requires m.Valid()
  {
    aR * aR * (mV / m.pi) * phiVis
  }

  /** phi_vis. */
  function PhiVis(p: ParameterSpace): Result<real, Error> {
    VisiblePhaseSpace(p.mV, p.mTop)
  }

  /** phi_invis of a point. */
  function PhiInvis(m: MathLib, p: ParameterSpace): Result<real, Error>
    requires m.Valid()
  {
    InvisiblePhaseSpace(m, p.mV, p.mDM)
  }

  /** G_vis of a point. */
  function GVis(m: MathLib, p: ParameterSpace): Result<real, Error>
    requires m.Valid()
  {
    VisibleWidth(m, p.mV, p.aR, p.mTop)
  }

  /**
    The point forms of the phase-space factors and the visible width read
    the point's own masses and a_r: phi_invis exists only with mV non-zero
    and 2 mDM at most mV in magnitude; G_vis exists whenever mV is non-zero
    and vanishes with a_r.
   */
  lemma PointWidths(m: MathLib, p: ParameterSpace)
    requires m.Valid()
    ensures PhiInvis(m, p).Ok? <==> p.mV != 0.0 && 4.0 * (p.mDM * p.mDM) <= p.mV * p.mV
    ensures PhiInvis(m, p).Ok? ==> PhiInvis(m, p).value >= 0.0
    ensures PhiVis(p).Ok? <==> p.mV != 0.0
    ensures GVis(m, p).Ok? <==> p.mV != 0.0
    ensures GVis(m, p).Ok? && p.mV > 0.0 ==> GVis(m, p).value >= 0.0
    ensures GVis(m, p).Ok? && p.aR == 0.0 ==> GVis(m, p).value == 0.0
  {
  }

  /** The invisible width of a coupling with square `gSquared`: g^2 mV / (12 pi) phi_invis. */
  function InvisibleWidth(m: MathLib, mV: real, gSquared: real, phiInvis: real): real
    requires m.Valid()
  {
    gSquared * (mV / (12.0 * m.pi)) * phiInvis
  }

  /** G_invis, chosen by priority: from the total width, else from g; the BR branch raises. */
  function GInvis(m: MathLib, p: ParameterSpace): (r: Result<real, Error>)
    requires m.Valid()
    ensures !HasDriver(p) ==> r == Err(NoDrivingParameter)
    ensures p.gTot.None? && p.g.None? && p.br.Some? ==> r == Err(NameError)
    ensures p.gTot.Some? ==> (r.Ok? <==> p.mV != 0.0)
    ensures p.gTot.Some? && r.Ok? ==> r.value + GVis(m, p).value == p.gTot.value
    ensures p.gTot.None? && p.g.Some? ==> (r.Ok? <==> PhiInvis(m, p).Ok?)
    ensures p.gTot.None? && p.g.Some? && r.Ok? ==>
      r.value == InvisibleWidth(m, p.mV, Square(p.g.value), PhiInvis(m, p).value)
    ensures r.Err? ==> r.error != NoWidthOrBranchingRatio && !r.error.Inconsistent?
  {
    if p.gTot.Some? then
      var gv :- GVis(m, p);
      Ok(p.gTot.value - gv)
    else if p.g.Some? then
      var phi :- PhiInvis(m, p);
      Ok(InvisibleWidth(m, p.mV, Square(p.g.value), phi))
    else if p.br.Some? then
      Err(NameError)
    else
      Err(NoDrivingParameter)
  }

  // ---------------------------------------------------------------------------
  // Physical relations a resolved point satisfies

  /** The total width is the visible width plus the invisible width of g. */
  predicate WidthsAdd(m: MathLib, p: ParameterSpace)
    requires m.Valid()
  {
    && p.g.Some? && p.gTot.Some?
    && GVis(m, p).Ok? && PhiInvis(m, p).Ok?
    && p.gTot.value == GVis(m, p).value + InvisibleWidth(m, p.mV, Square(p.g.value), PhiInvis(m, p).value)
  }

  /** BR is the invisible share of the total width: BR * G_tot == G_tot - G_vis. */
  predicate BranchingBalance(m: MathLib, p: ParameterSpace)
    requires m.Valid()
  {
    && p.br.Some? && p.gTot.Some?
    && GVis(m, p).Ok?
    && p.br.value * p.gTot.value == p.gTot.value - GVis(m, p).value
  }

  // ---------------------------------------------------------------------------
  // Derivations

  /**
    The preset check shared by the three derivations: a value the caller
    gave must be close to the freshly computed one, which then replaces it.
   */
  function Check(f: Field, preset: Option<real>, computed: real): (r: Result<real, Error>)
    ensures r.Ok? <==> preset.None? || IsClose(preset.value, computed)
    ensures r.Ok? ==> r.value == computed
    ensures r.Err? ==> r.error == Inconsistent(f, preset.value, computed)
  {
    if preset.Some? && !IsClose(preset.value, computed) then
      Err(Inconsistent(f, preset.value, computed))
    else
      Ok(computed)
  }

  /**
    calculate_G_tot: G_vis + G_invis. When the width was given, G_invis is
    read back from it, so the recomputed width is the given one and the
    preset check cannot fire.
   */
  function CalculateGTot(m: MathLib, p: ParameterSpace): (r: Result<ParameterSpace, Error>)
    requires m.Valid()
    ensures r.Ok? ==> r.value.gTot.Some? && r.value == p.(gTot := r.value.gTot)
    ensures p.gTot.Some? ==> r == (if p.mV == 0.0 then Err(ZeroDivision) else Ok(p))
    ensures p.gTot.None? && p.g.Some? && r.Ok? ==> WidthsAdd(m, r.value)
    ensures p.gTot.None? && p.g.None? && p.br.Some? && p.mV != 0.0 ==> r == Err(NameError)
    ensures r.Err? ==> r.error in {ZeroDivision, MathDomain, NameError, NoDrivingParameter}
    ensures r.Err? && (p.g.Some? || p.gTot.Some?) ==> r.error in {ZeroDivision, MathDomain}
  {
    var gv :- GVis(m, p);
    var gi :- GInvis(m, p);
    match Check(TotalWidth, p.gTot, gv + gi)
    case Err(e) => Err(e)
    case Ok(total) => Ok(p.(gTot := Some(total)))
  }

  /**
    g squared, from the total width when it is set, else from the branching
    ratio. Its invisible width reproduces G_tot - G_vis, respectively makes
    the invisible share of the width equal BR.
   */
  function CouplingSquared(m: MathLib, p: ParameterSpace): (r: Result<real, Error>)
    requires m.Valid()
    ensures p.gTot.None? && p.br.None? ==> r == Err(NoWidthOrBranchingRatio)
    ensures p.gTot.Some? && r.Ok? ==>
      && PhiInvis(m, p).Ok? && GVis(m, p).Ok?
      && InvisibleWidth(m, p.mV, r.value, PhiInvis(m, p).value) == p.gTot.value - GVis(m, p).value
    ensures p.gTot.None? && p.br.Some? && r.Ok? ==>
      && PhiInvis(m, p).Ok? && GVis(m, p).Ok?
      && InvisibleWidth(m, p.mV, r.value, PhiInvis(m, p).value) * (1.0 - p.br.value)
         == p.br.value * GVis(m, p).value
    ensures p.gTot.None? && p.br == Some(1.0) ==> r == Err(ZeroDivision)
    ensures r.Err? && (p.gTot.Some? || p.br.Some?) ==> r.error in {ZeroDivision, MathDomain}
  {
    if p.gTot.Some? then
      CouplingFromWidth(m, p.mV, p.mDM, p.aR, p.mTop, p.gTot.value)
    else if p.br.Some? then
      CouplingFromBranching(m, p.mV, p.mDM, p.aR, p.mTop, p.br.value)
    else
      Err(NoWidthOrBranchingRatio)
  }

  /** At the threshold 2 mDM = mV phi_invis vanishes, and deriving g squared divides by it. */
  lemma CouplingAtThreshold(m: MathLib, p: ParameterSpace)
    requires m.Valid()
    requires p.mV != 0.0 && 4.0 * (p.mDM * p.mDM) == p.mV * p.mV
    requires p.gTot.Some? || (p.br.Some? && p.br != Some(1.0))
    ensures CouplingSquared(m, p) == Err(ZeroDivision)
  {
    if p.gTot.Some? {
      assert CouplingSquared(m, p) == CouplingFromWidth(m, p.mV, p.mDM, p.aR, p.mTop, p.gTot.value);
    } else {
      assert CouplingSquared(m, p) == CouplingFromBranching(m, p.mV, p.mDM, p.aR, p.mTop, p.br.value);
    }
  }

  /** Above the threshold phi_invis takes the root of a negative number. */
  lemma CouplingAboveThreshold(m: MathLib, p: ParameterSpace)
    requires m.Valid()
    requires p.mV != 0.0 && 4.0 * (p.mDM * p.mDM) > p.mV * p.mV
    requires p.gTot.Some? || (p.br.Some? && p.br != Some(1.0))
    ensures CouplingSquared(m, p) == Err(MathDomain)
  {
    if p.gTot.Some? {
      assert CouplingSquared(m, p) == CouplingFromWidth(m, p.mV, p.mDM, p.aR, p.mTop, p.gTot.value);
    } else {
      assert CouplingSquared(m, p) == CouplingFromBranching(m, p.mV, p.mDM, p.aR, p.mTop, p.br.value);
    }
  }

  /** The width branch of g squared: G_invis = G_tot - G_vis over mV / (12 pi) phi_invis. */
  function CouplingFromWidth(m: MathLib, mV: real, mDM: real, aR: real, mTop: real, gTot: real): (r: Result<real, Error>)
    requires m.Valid()
    ensures r.Ok? <==> mV != 0.0 && 4.0 * (mDM * mDM) < mV * mV
    ensures r.Err? ==> r.error == (if mV != 0.0 && 4.0 * (mDM * mDM) > mV * mV then MathDomain else ZeroDivision)
    ensures r.Ok? ==>
      && InvisiblePhaseSpace(m, mV, mDM).Ok? && VisibleWidth(m, mV, aR, mTop).Ok?
      && InvisibleWidth(m, mV, r.value, InvisiblePhaseSpace(m, mV, mDM).value) == gTot - VisibleWidth(m, mV, aR, mTop).value
  {
    var gv :- VisibleWidth(m, mV, aR, mTop);
    var phi :- InvisiblePhaseSpace(m, mV, mDM);
    var denominator := (mV / (12.0 * m.pi)) * phi;
    NonZeroProduct(mV / (12.0 * m.pi), phi);
    assert mV / (12.0 * m.pi) * (12.0 * m.pi) == mV;
    if denominator == 0.0 then Err(ZeroDivision)
    else
      assert InvisibleWidth(m, mV, (gTot - gv) / denominator, phi) == (gTot - gv) / denominator * denominator;
      Ok((gTot - gv) / denominator)
  }

  /** The branching-ratio branch of g squared: 12 a_r^2 BR / (1 - BR) phi_vis / phi_invis. */
  function CouplingFromBranching(m: MathLib, mV: real, mDM: real, aR: real, mTop: real, b: real): (r: Result<real, Error>)
    requires m.Valid()
    ensures b == 1.0 ==> r == Err(ZeroDivision)
    ensures mV != 0.0 && 4.0 * (mDM * mDM) == mV * mV ==> r == Err(ZeroDivision)
    ensures b != 1.0 && mV != 0.0 && 4.0 * (mDM * mDM) > mV * mV ==> r == Err(MathDomain)
    ensures r.Err? ==> r.error in {ZeroDivision, MathDomain}
    ensures r.Ok? ==>
      && InvisiblePhaseSpace(m, mV, mDM).Ok? && VisibleWidth(m, mV, aR, mTop).Ok?
      && InvisibleWidth(m, mV, r.value, InvisiblePhaseSpace(m, mV, mDM).value) * (1.0 - b)
         == b * VisibleWidth(m, mV, aR, mTop).value
  {
    if 1.0 - b == 0.0 then Err(ZeroDivision)
    else
      var ratio := b / (1.0 - b);
      var phiVis :- VisiblePhaseSpace(mV, mTop);
      var phiInvis :- InvisiblePhaseSpace(m, mV, mDM);
      if phiInvis == 0.0 then Err(ZeroDivision)
      else
        var gSquared := 12.0 * (aR * aR) * ratio * phiVis / phiInvis;
        BranchingCoupling(m, mV, aR, b, ratio, phiVis, phiInvis, gSquared);
        Ok(gSquared)
  }

  /** The algebra behind the branching-ratio formula for g squared. */
  lemma BranchingCoupling(m: MathLib, mV: real, aR: real, b: real, ratio: real, phiVis: real, phiInvis: real, gSquared: real)
    requires m.Valid()
    requires 1.0 - b != 0.0 && ratio == b / (1.0 - b)
    requires phiInvis != 0.0
    requires gSquared == 12.0 * (aR * aR) * ratio * phiVis / phiInvis
    ensures InvisibleWidth(m, mV, gSquared, phiInvis) * (1.0 - b) == b * VisibleWidthOf(m, mV, aR, phiVis)
  {
    var k := mV / m.pi;
    var c := mV / (12.0 * m.pi);
    assert c * 12.0 == k;
    BranchingAlgebra(aR * aR, k, c, b, ratio, phiVis, phiInvis, gSquared);
  }

  lemma BranchingAlgebra(a2: real, k: real, c: real, b: real, ratio: real, phiVis: real, phiInvis: real, gSquared: real)
    requires 1.0 - b != 0.0 && ratio == b / (1.0 - b)
    requires phiInvis != 0.0 && c * 12.0 == k
    requires gSquared == 12.0 * a2 * ratio * phiVis / phiInvis
    ensures gSquared * c * phiInvis * (1.0 - b) == b * (a2 * k * phiVis)
  {
    var x := 12.0 * a2 * ratio * phiVis;
    assert gSquared * phiInvis == x;
    assert ratio * (1.0 - b) == b;
    calc {
      gSquared * c * phiInvis * (1.0 - b);
      (gSquared * phiInvis) * c * (1.0 - b);
      x * c * (1.0 - b);
      (ratio * (1.0 - b)) * (a2 * (c * 12.0) * phiVis);
      b * (a2 * k * phiVis);
    }
  }

  /** calculate_g: the non-negative root of g squared, checked against a given g. */
  function CalculateG(m: MathLib, p: ParameterSpace): (r: Result<ParameterSpace, Error>)
    requires m.Valid()
    ensures r.Ok? ==> r.value.g.Some? && r.value.g.value >= 0.0 && r.value == p.(g := r.value.g)
    ensures r.Ok? ==> CouplingSquared(m, p).Ok? && CouplingSquared(m, p).value == Square(r.value.g.value)
    ensures p.g.Some? && r.Ok? ==> IsClose(p.g.value, r.value.g.value)
    ensures r.Err? && r.error.Inconsistent? ==>
      && p.g.Some? && r.error.field == DarkCoupling && r.error.preset == p.g.value
      && r.error.computed >= 0.0 && !IsClose(p.g.value, r.error.computed)
    ensures r.Err? && (p.gTot.Some? || p.br.Some?) ==>
      r.error in {ZeroDivision, MathDomain, NegativeCouplingSquared} || r.error.Inconsistent?
  {
    var gSquared :- CouplingSquared(m, p);
    if gSquared < 0.0 then Err(NegativeCouplingSquared)
    else
      RootSquared(m, gSquared);
      var g :- Check(DarkCoupling, p.g, m.sqrt(gSquared));
      Ok(p.(g := Some(g)))
  }

  /** calculate_BR: the invisible share G_invis / (G_vis + G_invis). */
  function CalculateBR(m: MathLib, p: ParameterSpace): (r: Result<ParameterSpace, Error>)
    requires m.Valid()
    ensures r.Ok? ==> r.value.br.Some? && r.value == p.(br := r.value.br)
    ensures r.Ok? ==> GVis(m, p).Ok? && GInvis(m, p).Ok?
    ensures r.Ok? ==> GVis(m, p).value + GInvis(m, p).value != 0.0
    ensures r.Ok? ==> r.value.br.value * (GVis(m, p).value + GInvis(m, p).value) == GInvis(m, p).value
    ensures p.br.Some? && r.Ok? ==> IsClose(p.br.value, r.value.br.value)
    ensures r.Err? && r.error.Inconsistent? ==>
      && p.br.Some? && r.error.field == BranchingRatio && r.error.preset == p.br.value
      && !IsClose(p.br.value, r.error.computed)
    ensures r.Err? && (p.g.Some? || p.gTot.Some?) ==> r.error in {ZeroDivision, MathDomain} || r.error.Inconsistent?
  {
    var gi :- GInvis(m, p);
    match GVis(m, p)
    case Err(e) => Err(e)
    case Ok(gv) =>
      var share :- Divide(gi, gv + gi);
      var br :- Check(BranchingRatio, p.br, share);
      Ok(p.(br := Some(br)))
  }

  /** Every given quantity ends up close to its final value. */
  predicate PresetsKept(p: ParameterSpace, q: ParameterSpace) {
    && (p.g.Some? ==> q.g.Some? && IsClose(p.g.value, q.g.value))
    && (p.gTot.Some? ==> q.gTot.Some? && IsClose(p.gTot.value, q.gTot.value))
    && (p.br.Some? ==> q.br.Some? && IsClose(p.br.value, q.br.value))
  }

  /**
    calculate_all: g drives (width, then BR), else BR drives (g, then width),
    else the width drives (g, then BR); with none given nothing happens.
   */
  function CalculateAll(m: MathLib, p: ParameterSpace): (r: Result<ParameterSpace, Error>)
    requires m.Valid()
    ensures !HasDriver(p) ==> r == Ok(p)
    ensures r.Ok? ==> SameInputs(p, r.value) && PresetsKept(p, r.value)
    ensures r.Ok? && HasDriver(p) ==> Resolved(r.value)
    ensures r.Err? ==> r.error in {ZeroDivision, MathDomain, NegativeCouplingSquared} || r.error.Inconsistent?
  {
    if p.g.Some? then
      match CalculateGTot(m, p)
      case Err(e) => Err(e)
      case Ok(q) => IsCloseReflexive(p.g.value); CalculateBR(m, q)
    else if p.br.Some? then
      match CalculateG(m, p)
      case Err(e) => Err(e)
      case Ok(q) => IsCloseReflexive(p.br.value); CalculateGTot(m, q)
    else if p.gTot.Some? then
      match CalculateG(m, p)
      case Err(e) => Err(e)
      case Ok(q) => IsCloseReflexive(p.gTot.value); CalculateBR(m, q)
    else
      Ok(p)
  }

  // ---------------------------------------------------------------------------
  // Properties of a resolution

  /** BR computed from a width that G_vis and G_invis add up to balances it. */
  lemma ShareBalances(m: MathLib, q: ParameterSpace, r: ParameterSpace)
    requires m.Valid()
    requires CalculateBR(m, q) == Ok(r) && q.gTot.Some?
    requires GInvis(m, q).Ok? && GVis(m, q).Ok?
    requires GInvis(m, q).value + GVis(m, q).value == q.gTot.value
    ensures BranchingBalance(m, r)
  {
  }

  /** g drives: the width from g, then BR from the width. */
  lemma CouplingDrivenRelations(m: MathLib, p: ParameterSpace, q: ParameterSpace, r: ParameterSpace)
    requires m.Valid()
    requires CalculateGTot(m, p) == Ok(q) && CalculateBR(m, q) == Ok(r)
    ensures p.gTot.None? && p.g.Some? ==> WidthsAdd(m, r)
    ensures BranchingBalance(m, r)
  {
    assert GVis(m, q).Ok? && GInvis(m, q).Ok? && GInvis(m, q).value + GVis(m, q).value == q.gTot.value;
    ShareBalances(m, q, r);
  }

  /** g from BR makes the invisible width stand to G_vis as BR to 1 - BR. */
  lemma BranchingCouplingWidth(m: MathLib, p: ParameterSpace, q: ParameterSpace)
    requires m.Valid()
    requires p.gTot.None? && p.br.Some?
    requires CalculateG(m, p) == Ok(q)
    ensures GVis(m, q).Ok? && PhiInvis(m, q).Ok?
    ensures InvisibleWidth(m, q.mV, Square(q.g.value), PhiInvis(m, q).value) * (1.0 - q.br.value)
      == q.br.value * GVis(m, q).value
  {
  }

  lemma BalanceAlgebra(b: real, gv: real, iw: real, total: real)
    requires iw * (1.0 - b) == b * gv
    requires total == gv + iw
    ensures b * total == total - gv
  {
  }

  /** The width derived from a given g is G_vis plus the invisible width of g. */
  lemma CouplingWidthAdds(m: MathLib, q: ParameterSpace, r: ParameterSpace)
    requires m.Valid()
    requires q.gTot.None? && q.g.Some?
    requires CalculateGTot(m, q) == Ok(r)
    ensures WidthsAdd(m, r) && r == q.(gTot := r.gTot)
  {
  }

  /** BR drives without a width: g from BR, then the width from g. */
  lemma BranchingDrivenRelations(m: MathLib, p: ParameterSpace, q: ParameterSpace, r: ParameterSpace)
    requires m.Valid()
    requires p.g.None? && p.gTot.None? && p.br.Some?
    requires CalculateG(m, p) == Ok(q) && CalculateGTot(m, q) == Ok(r)
    ensures WidthsAdd(m, r) && BranchingBalance(m, r)
  {
    BranchingCouplingWidth(m, p, q);
    CouplingWidthAdds(m, q, r);
    assert GVis(m, r) == GVis(m, q) && PhiInvis(m, r) == PhiInvis(m, q);
    BalanceOfWidths(m, r);
  }

  /**
    A width that is G_vis plus the invisible width of g is balanced by a BR
    whose invisible width stands to G_vis as BR to 1 - BR.
   */
  lemma BalanceOfWidths(m: MathLib, r: ParameterSpace)
    requires m.Valid()
    requires WidthsAdd(m, r) && r.br.Some?
    requires InvisibleWidth(m, r.mV, Square(r.g.value), PhiInvis(m, r).value) * (1.0 - r.br.value)
      == r.br.value * GVis(m, r).value
    ensures BranchingBalance(m, r)
  {
    var iw := InvisibleWidth(m, r.mV, Square(r.g.value), PhiInvis(m, r).value);
    BalanceAlgebra(r.br.value, GVis(m, r).value, iw, r.gTot.value);
  }

  /** g from the width makes the invisible width fill the rest of the width. */
  lemma WidthCouplingWidth(m: MathLib, p: ParameterSpace, q: ParameterSpace)
    requires m.Valid()
    requires p.gTot.Some?
    requires CalculateG(m, p) == Ok(q)
    ensures WidthsAdd(m, q)
  {
  }

  /** The width drives: g from the width, then BR from the width. */
  lemma WidthDrivenRelations(m: MathLib, p: ParameterSpace, q: ParameterSpace, r: ParameterSpace)
    requires m.Valid()
    requires p.gTot.Some?
    requires CalculateG(m, p) == Ok(q) && CalculateBR(m, q) == Ok(r)
    ensures WidthsAdd(m, r) && BranchingBalance(m, r)
  {
    WidthCouplingWidth(m, p, q);
    assert GVis(m, q).Ok? && GInvis(m, q).Ok? && GInvis(m, q).value + GVis(m, q).value == q.gTot.value;
    ShareBalances(m, q, r);
  }

  /**
    After a successful resolution the total width is G_vis plus the
    invisible width of the resolved g, unless g and the width were both
    given; and BR is the invisible share of the width, unless BR and the
    width were both given without g.
   */
  lemma ResolutionRelations(m: MathLib, p: ParameterSpace)
    requires m.Valid()
    requires HasDriver(p) && CalculateAll(m, p).Ok?
    ensures !(p.g.Some? && p.gTot.Some?) ==> WidthsAdd(m, CalculateAll(m, p).value)
    ensures !(p.g.None? && p.br.Some? && p.gTot.Some?) ==> BranchingBalance(m, CalculateAll(m, p).value)
  {
    var r := CalculateAll(m, p).value;
    if p.g.Some? {
      CouplingDrivenRelations(m, p, CalculateGTot(m, p).value, r);
    } else if p.br.Some? {
      if p.gTot.None? {
        BranchingDrivenRelations(m, p, CalculateG(m, p).value, r);
      }
    } else {
      WidthDrivenRelations(m, p, CalculateG(m, p).value, r);
    }
  }

  // ---------------------------------------------------------------------------
  // Idempotence

  /**
    A resolved point whose BR balances a non-zero width is a fixed point:
    resolving it again takes the g path and recomputes exactly its width and BR.
   */
  lemma FixedPoint(m: MathLib, r: ParameterSpace)
    requires m.Valid()
    requires Resolved(r) && BranchingBalance(m, r) && r.gTot.value != 0.0
    ensures CalculateAll(m, r) == Ok(r)
  {
    assert CalculateGTot(m, r) == Ok(r);
    BalancedShare(m, r);
    IsCloseReflexive(r.br.value);
    assert CalculateBR(m, r) == Ok(r);
  }

  /**
    Resolving a resolved point changes nothing, except after a BR-driven run
    that ended with a zero width, and except when BR and the width were both
    given without g (the width then decides and BR is never compared).
   */
  lemma Idempotent(m: MathLib, p: ParameterSpace)
    requires m.Valid()
    requires HasDriver(p) && CalculateAll(m, p).Ok?
    requires !(p.g.None? && p.br.Some? && p.gTot.Some?)
    requires p.g.None? && p.br.Some? ==> CalculateAll(m, p).value.gTot.value != 0.0
    ensures CalculateAll(m, CalculateAll(m, p).value) == CalculateAll(m, p)
  {
    var r := CalculateAll(m, p).value;
    ResolutionRelations(m, p);
    if p.g.Some? {
      var q := CalculateGTot(m, p).value;
      assert r == CalculateBR(m, q).value;
      assert GVis(m, q).value + GInvis(m, q).value == q.gTot.value;
    } else if p.br.None? {
      var q := CalculateG(m, p).value;
      assert r == CalculateBR(m, q).value;
      assert GVis(m, q).value + GInvis(m, q).value == q.gTot.value;
    }
    FixedPoint(m, r);
  }

  /**
    The exception: BR = 1/2 with a_r = 0 resolves to g = 0 and a zero width,
    and resolving that point again divides by the zero width.
   */
  lemma ZeroWidthNotIdempotent(m: MathLib)
    requires m.Valid()
    ensures var p := ParameterSpace(1000.0, 0.0, 0.0, None, None, Some(0.5), 172.0);
      && CalculateAll(m, p).Ok?
      && CalculateAll(m, p).value.gTot == Some(0.0)
      && CalculateAll(m, CalculateAll(m, p).value) == Err(ZeroDivision)
  {
    var p := ParameterSpace(1000.0, 0.0, 0.0, None, None, Some(0.5), 172.0);
    SqrtOfSquare(m, 1.0);
    SqrtOfSquare(m, 0.0);
    assert PhiInvis(m, p) == Ok(1.0);
    assert CouplingSquared(m, p) == Ok(0.0);
    var q := p.(g := Some(0.0));
    assert CalculateG(m, p) == Ok(q);
    assert GVis(m, q) == Ok(0.0);
    var r := q.(gTot := Some(0.0));
    assert CalculateGTot(m, q) == Ok(r);
    assert CalculateGTot(m, r) == Ok(r);
    assert CalculateBR(m, r) == Err(ZeroDivision);
  }

  /**
    The other exception: BR and the width given without g. The first run
    derives g from the width and never compares BR; the resolved point has
    g set, so the second run recomputes BR, here 1 against the given 1/2,
    and exits on the inconsistency.
   */
  lemma PresetBranchingNotIdempotent(m: MathLib)
    requires m.Valid()
    ensures var p := ParameterSpace(1.0, 0.0, 0.0, None, Some(1.0), Some(0.5), 172.0);
      && CalculateAll(m, p).Ok?
      && CalculateAll(m, p).value.br == Some(0.5)
      && CalculateAll(m, CalculateAll(m, p).value) == Err(Inconsistent(BranchingRatio, 0.5, 1.0))
  {
    var p := ParameterSpace(1.0, 0.0, 0.0, None, Some(1.0), Some(0.5), 172.0);
    SqrtOfSquare(m, 1.0);
    assert PhiInvis(m, p) == Ok(1.0);
    assert GVis(m, p) == Ok(0.0);
    var g2 := CouplingSquared(m, p).value;
    assert InvisibleWidth(m, 1.0, g2, 1.0) == 1.0;
    var q := CalculateG(m, p).value;
    assert CalculateGTot(m, q) == Ok(q);
    assert CalculateAll(m, p) == Ok(q);
    assert CalculateGTot(m, q) == Ok(q);
    assert GVis(m, q) == Ok(0.0);
    assert GInvis(m, q) == Ok(1.0);
    assert !IsClose(0.5, 1.0);
    assert CalculateBR(m, q) == Err(Inconsistent(BranchingRatio, 0.5, 1.0));
  }

  // ---------------------------------------------------------------------------
  // Round trips through calculate_g

  /** A non-zero product of two factors has non-zero factors, and conversely. */
  lemma NonZeroProduct(a: real, b: real)
    ensures a * b != 0.0 <==> a != 0.0 && b != 0.0
  {
    if a * b == 0.0 {
      ZeroProduct(a, b);
    }
  }

  lemma CancelFactor(x: real, y: real, k: real, phi: real)
    requires k * phi != 0.0
    requires x * k * phi == y * k * phi
    ensures x == y
  {
    assert (x - y) * (k * phi) == 0.0;
    ZeroProduct(x - y, k * phi);
  }

  /**
    Below the pair-production threshold the width formula is invertible in
    g squared: from a width equal to G_vis plus the invisible width of g,
    the width branch gives back g squared.
   */
  lemma WidthDrivenCouplingSquared(m: MathLib, q: ParameterSpace)
    requires m.Valid()
    requires q.mV != 0.0 && 4.0 * (q.mDM * q.mDM) < q.mV * q.mV
    requires WidthsAdd(m, q)
    ensures CouplingSquared(m, q) == Ok(Square(q.g.value))
  {
    var phi := PhiInvis(m, q).value;
    assert CouplingSquared(m, q).Ok?;
    InvisibleWidthInjective(m, q.mV, CouplingSquared(m, q).value, Square(q.g.value), phi);
  }

  /** For a non-zero mediator mass and phi_invis the invisible width determines g squared. */
  lemma InvisibleWidthInjective(m: MathLib, mV: real, x: real, y: real, phi: real)
    requires m.Valid()
    requires mV != 0.0 && phi != 0.0
    requires InvisibleWidth(m, mV, x, phi) == InvisibleWidth(m, mV, y, phi)
    ensures x == y
  {
    var k := mV / (12.0 * m.pi);
    assert k * (12.0 * m.pi) == mV;
    NonZeroProduct(k, 12.0 * m.pi);
    NonZeroProduct(k, phi);
    CancelFactor(x, y, k, phi);
  }

  /** ... and so calculate_g recovers a non-negative g from the width. */
  lemma WidthRecoversCoupling(m: MathLib, q: ParameterSpace)
    requires m.Valid()
    requires q.mV != 0.0 && 4.0 * (q.mDM * q.mDM) < q.mV * q.mV
    requires WidthsAdd(m, q) && q.g.value >= 0.0
    ensures CalculateG(m, q.(g := None)) == Ok(q)
  {
    WidthDrivenCouplingSquared(m, q);
    RootOfSquare(m, q, q.g.value);
    assert q.(g := Some(q.g.value)) == q;
  }

  /** calculate_g takes the root of the square it computes: a non-negative g0 comes back. */
  lemma RootOfSquare(m: MathLib, p: ParameterSpace, g0: real)
    requires m.Valid()
    requires g0 >= 0.0 && CouplingSquared(m, p) == Ok(Square(g0))
    ensures CalculateG(m, p.(g := None)) == Ok(p.(g := Some(g0)))
  {
    assert CouplingSquared(m, p.(g := None)) == CouplingSquared(m, p);
    SquareNonNegative(g0);
    SqrtOfSquare(m, g0);
  }

  /**
    Resolving from g, forgetting g and resolving again from the width that
    came out gives back the same point.
   */
  lemma CouplingRoundTrip(m: MathLib, p: ParameterSpace)
    requires m.Valid()
    requires p.g.Some? && p.gTot.None? && p.br.None? && p.g.value >= 0.0
    requires p.mV != 0.0 && 4.0 * (p.mDM * p.mDM) < p.mV * p.mV
    requires CalculateAll(m, p).Ok?
    ensures var r := CalculateAll(m, p).value;
      CalculateAll(m, p.(g := None, gTot := r.gTot)) == Ok(r)
  {
    var q := CalculateGTot(m, p).value;
    CouplingWidthAdds(m, p, q);
    WidthRecoversCoupling(m, q);
    assert p.(g := None, gTot := q.gTot) == q.(g := None);
  }

  /** A BR-driven resolution puts G_vis / (1 - BR) into the width. */
  lemma BranchingDrivenWidth(m: MathLib, p: ParameterSpace)
    requires m.Valid()
    requires p.g.None? && p.gTot.None? && p.br.Some?
    requires CalculateAll(m, p).Ok?
    ensures CalculateAll(m, p).value.gTot.value * (1.0 - p.br.value) == GVis(m, p).value
  {
    ResolutionRelations(m, p);
  }

  /**
    Resolving from BR, forgetting BR and resolving again from the width that
    came out gives back the same point, provided that width is not zero.
   */
  lemma BranchingRoundTrip(m: MathLib, p: ParameterSpace)
    requires m.Valid()
    requires p.g.None? && p.gTot.None? && p.br.Some?
    requires p.mV != 0.0 && 4.0 * (p.mDM * p.mDM) < p.mV * p.mV
    requires CalculateAll(m, p).Ok? && CalculateAll(m, p).value.gTot.value != 0.0
    ensures var r := CalculateAll(m, p).value;
      CalculateAll(m, p.(gTot := r.gTot, br := None)) == Ok(r)
  {
    var r := CalculateAll(m, p).value;
    ResolutionRelations(m, p);
    assert r.g.value >= 0.0;
    assert p.(gTot := r.gTot, br := None) == r.(g := None, br := None);
    WidthRoundTrip(m, r);
  }

  /**
    A resolved point whose width is G_vis plus the invisible width of its g
    and whose BR balances that width is recovered from its width alone.
   */
  lemma WidthRoundTrip(m: MathLib, r: ParameterSpace)
    requires m.Valid()
    requires r.mV != 0.0 && 4.0 * (r.mDM * r.mDM) < r.mV * r.mV
    requires WidthsAdd(m, r) && BranchingBalance(m, r) && r.g.value >= 0.0 && r.gTot.value != 0.0
    ensures CalculateAll(m, r.(g := None, br := None)) == Ok(r)
  {
    WidthRecoversCoupling(m, r.(br := None));
    assert r.(br := None).(g := None) == r.(g := None, br := None);
    FixedPointShare(m, r);
  }

  /** Recomputing BR of a balanced point with a non-zero width restores it. */
  lemma FixedPointShare(m: MathLib, r: ParameterSpace)
    requires m.Valid()
    requires Resolved(r) && BranchingBalance(m, r) && r.gTot.value != 0.0
    ensures CalculateBR(m, r.(br := None)) == Ok(r)
  {
    var q := r.(br := None);
    BalancedShare(m, r);
    assert GVis(m, q) == GVis(m, r) && GInvis(m, q) == GInvis(m, r);
  }

  /** The BR of a balanced point with a non-zero width is the share calculate_BR computes. */
  lemma BalancedShare(m: MathLib, r: ParameterSpace)
    requires m.Valid()
    requires BranchingBalance(m, r) && r.gTot.value != 0.0
    ensures GVis(m, r).Ok? && GInvis(m, r).Ok?
    ensures Divide(GInvis(m, r).value, GVis(m, r).value + GInvis(m, r).value) == Ok(r.br.value)
  {
    var gv := GVis(m, r).value;
    var gi := GInvis(m, r).value;
    assert gv + gi == r.gTot.value;
    var x := Divide(gi, gv + gi).value;
    CancelRight(x, r.br.value, r.gTot.value);
  }

  /** A non-zero factor cancels on the right. */
  lemma CancelRight(x: real, y: real, t: real)
    requires t != 0.0 && x * t == y * t
    ensures x == y
  {
    assert (x - y) * t == 0.0;
    ZeroProduct(x - y, t);
  }

  // ---------------------------------------------------------------------------
  // Given values that are never compared

  /**
    With g and the width both given, g takes part in nothing: any other value
    of g leads to the same outcome, with that g carried through unchanged.
   */
  lemma CouplingUncheckedAgainstWidth(m: MathLib, p: ParameterSpace, g2: real)
    requires m.Valid()
    requires p.g.Some? && p.gTot.Some?
    ensures var r := CalculateAll(m, p);
      var r2 := CalculateAll(m, p.(g := Some(g2)));
      && r2.Ok? == r.Ok?
      && (r.Ok? ==> r2.value == r.value.(g := Some(g2)))
      && (r.Err? ==> r2.error == r.error)
  {
    var p2 := p.(g := Some(g2));
    assert GVis(m, p2) == GVis(m, p) && GInvis(m, p2) == GInvis(m, p);
  }

  /** An instance: g = 0 with a width of 1 GeV and a_r = 0 resolves without complaint. */
  lemma MismatchedCouplingAccepted(m: MathLib)
    requires m.Valid()
    ensures var p := ParameterSpace(1.0, 0.0, 0.0, Some(0.0), Some(1.0), None, 172.0);
      && CalculateAll(m, p).Ok?
      && !WidthsAdd(m, CalculateAll(m, p).value)
  {
    var p := ParameterSpace(1.0, 0.0, 0.0, Some(0.0), Some(1.0), None, 172.0);
    SqrtOfSquare(m, 1.0);
    assert PhiInvis(m, p) == Ok(1.0);
    assert GVis(m, p) == Ok(0.0);
    assert CalculateGTot(m, p) == Ok(p);
    assert CalculateBR(m, p) == Ok(p.(br := Some(1.0)));
  }

  /**
    With the width and BR given but not g, BR takes part in nothing either:
    g comes from the width and BR is kept as given.
   */
  lemma BranchingUncheckedAgainstWidth(m: MathLib, p: ParameterSpace, b2: real)
    requires m.Valid()
    requires p.g.None? && p.gTot.Some? && p.br.Some?
    ensures var r := CalculateAll(m, p);
      var r2 := CalculateAll(m, p.(br := Some(b2)));
      && r2.Ok? == r.Ok?
      && (r.Ok? ==> r2.value == r.value.(br := Some(b2)) && r.value.br == p.br)
      && (r.Err? ==> r2.error == r.error)
  {
    var p2 := p.(br := Some(b2));
    WidthCouplingIgnoresBranching(m, p, b2);
    if CalculateG(m, p).Ok? {
      var q := CalculateG(m, p).value;
      assert CalculateGTot(m, q) == Ok(q);
      assert CalculateGTot(m, q.(br := Some(b2))) == Ok(q.(br := Some(b2)));
    }
  }

  /** With the width given, g squared is derived from it alone. */
  lemma WidthCouplingIgnoresBranching(m: MathLib, p: ParameterSpace, b2: real)
    requires m.Valid()
    requires p.gTot.Some?
    ensures CouplingSquared(m, p.(br := Some(b2))) == CouplingSquared(m, p)
    ensures CalculateG(m, p.(br := Some(b2))).Ok? == CalculateG(m, p).Ok?
    ensures CalculateG(m, p).Ok? ==> CalculateG(m, p.(br := Some(b2))).value == CalculateG(m, p).value.(br := Some(b2))
    ensures CalculateG(m, p).Err? ==> CalculateG(m, p.(br := Some(b2))).error == CalculateG(m, p).error
  {
  }

  /**
    With g and the width both given, the dark-matter mass takes part in
    nothing, so a kinematically forbidden decay goes unnoticed.
   */
  lemma DarkMassUnusedWithWidth(m: MathLib, p: ParameterSpace, mDM2: real)
    requires m.Valid()
    requires p.g.Some? && p.gTot.Some?
    ensures var r := CalculateAll(m, p);
      var r2 := CalculateAll(m, p.(mDM := mDM2));
      && r2.Ok? == r.Ok?
      && (r.Ok? ==> r2.value == r.value.(mDM := mDM2))
      && (r.Err? ==> r2.error == r.error)
  {
    var p2 := p.(mDM := mDM2);
    assert GVis(m, p2) == GVis(m, p) && GInvis(m, p2) == GInvis(m, p);
  }

  // ---------------------------------------------------------------------------
  // Error outcomes

  /** Without a mediator mass every ratio divides by zero. */
  lemma MasslessMediatorRejected(m: MathLib, p: ParameterSpace)
    requires m.Valid()
    requires p.mV == 0.0 && HasDriver(p)
    ensures CalculateAll(m, p) == Err(ZeroDivision)
  {
  }

  /** BR = 1 without a width divides by 1 - BR = 0. */
  lemma UnitBranchingRatioRejected(m: MathLib, p: ParameterSpace)
    requires m.Valid()
    requires p.g.None? && p.gTot.None? && p.br == Some(1.0)
    ensures CalculateAll(m, p) == Err(ZeroDivision)
  {
  }

  /** At the threshold 2 mDM = mV, phi_invis vanishes and deriving g divides by it. */
  lemma ThresholdRejected(m: MathLib, p: ParameterSpace)
    requires m.Valid()
    requires p.mV != 0.0 && 4.0 * (p.mDM * p.mDM) == p.mV * p.mV
    requires p.g.None? && (p.gTot.Some? || (p.br.Some? && p.br != Some(1.0)))
    ensures CalculateAll(m, p) == Err(ZeroDivision)
  {
    CouplingAtThreshold(m, p);
    assert CalculateG(m, p) == Err(ZeroDivision);
  }

  /**
    Above the threshold phi_invis takes the root of a negative number; every
    path evaluates it except the one where g and the width are both given.
   */
  lemma ForbiddenDecayRejected(m: MathLib, p: ParameterSpace)
    requires m.Valid()
    requires p.mV != 0.0 && 4.0 * (p.mDM * p.mDM) > p.mV * p.mV
    requires HasDriver(p) && !(p.g.Some? && p.gTot.Some?)
    requires !(p.g.None? && p.gTot.None? && p.br == Some(1.0))
    ensures CalculateAll(m, p) == Err(MathDomain)
  {
    if p.g.Some? {
      assert PhiInvis(m, p) == Err(MathDomain);
      assert CalculateGTot(m, p) == Err(MathDomain);
    } else {
      CouplingAboveThreshold(m, p);
      assert CalculateG(m, p) == Err(MathDomain);
    }
  }

  /**
    Below the threshold, a given width smaller than G_vis leaves a negative
    invisible width and so a negative g squared.
   */
  lemma WidthBelowVisibleRejected(m: MathLib, p: ParameterSpace)
    requires m.Valid()
    requires p.mV > 0.0 && 4.0 * (p.mDM * p.mDM) < p.mV * p.mV
    requires p.g.None? && p.gTot.Some? && p.gTot.value < GVis(m, p).value
    ensures CalculateAll(m, p) == Err(NegativeCouplingSquared)
  {
    var phi := PhiInvis(m, p).value;
    var k := p.mV / (12.0 * m.pi);
    assert k * (12.0 * m.pi) == p.mV;
    assert k > 0.0;
    MulPositive(k, phi);
    var gSquared := CouplingSquared(m, p).value;
    assert gSquared * (k * phi) < 0.0;
    if gSquared >= 0.0 {
      MulNonNegative(gSquared, k * phi);
    }
  }

  // ---------------------------------------------------------------------------
  // Names and comparison of resolved points

  /** Every successful resolution with a driver is named after its BR. */
  lemma ResolvedNameCarriesBranching(m: MathLib, p: ParameterSpace)
    requires m.Valid()
    requires HasDriver(p) && CalculateAll(m, p).Ok?
    ensures var name := Name(CalculateAll(m, p).value);
      |name| == 4 && name[3].tag == "_BR" && name[3].value == CalculateAll(m, p).value.br.value
  {
  }

  /** `isclose` on a field that may be unset: NaN is close to nothing, itself included. */
  predicate OptionClose(a: Option<real>, b: Option<real>) {
    a.Some? && b.Some? && IsClose(a.value, b.value)
  }

  /**
    `__eq__`: all seven fields pairwise close. NaN is close to nothing, so
    only two points with g, G_tot and BR all set can compare equal.
   */
  predicate Equal(p: ParameterSpace, q: ParameterSpace)
    ensures Equal(p, q) ==> Resolved(p) && Resolved(q)
  {
    && IsClose(p.mV, q.mV) && IsClose(p.mDM, q.mDM) && IsClose(p.aR, q.aR)
    && OptionClose(p.g, q.g) && OptionClose(p.gTot, q.gTot) && OptionClose(p.br, q.br)
    && IsClose(p.mTop, q.mTop)
  }

  /** `__ne__`: the negation of `__eq__`, so any unset quantity makes two points unequal. */
  predicate NotEqual(p: ParameterSpace, q: ParameterSpace)
    ensures !Resolved(p) || !Resolved(q) ==> NotEqual(p, q)
    ensures NotEqual(p, q) <==> !Equal(p, q)
  {
    !Equal(p, q)
  }

  /** A point equals itself exactly when none of its fields is unset. */
  lemma EqualSelfIffResolved(p: ParameterSpace)
    ensures Equal(p, p) <==> Resolved(p)
    ensures NotEqual(p, p) <==> !Resolved(p)
  {
    IsCloseReflexive(p.mV);
    IsCloseReflexive(p.mDM);
    IsCloseReflexive(p.aR);
    IsCloseReflexive(p.mTop);
    if Resolved(p) {
      IsCloseReflexive(p.g.value);
      IsCloseReflexive(p.gTot.value);
      IsCloseReflexive(p.br.value);
    }
  }

  /**
    A fresh point: masses and a_r zero, top mass 172 GeV, nothing set. It
    has nothing to derive, is named by its three inputs alone, and compares
    unequal even to itself.
   */
  lemma FreshPoint(m: MathLib)
    requires m.Valid()
    ensures Initial.mV == 0.0 && Initial.mDM == 0.0 && Initial.aR == 0.0 && Initial.mTop == 172.0
    ensures !HasDriver(Initial)
    ensures CalculateAll(m, Initial) == Ok(Initial)
    ensures |Name(Initial)| == 3
    ensures NotEqual(Initial, Initial)
  {
  }
}
