/** The control structure of one path in the shader's Execute (TestProject/RaytracingShader.cs):
    the bounce loop with its five ways to end, the inside/outside medium flag that decides
    when absorption applies, and the choice of BSDF lobe in Scatter together with the
    WasRefracted flag it reports. The floating-point shading itself (Fresnel, GGX sampling,
    directions, exp/log absorption) is abstracted: the world supplies, for each bounce, the
    hit, the random draws and the values Scatter computes numerically. */
module PathControl {
  import opened Vectors
  import opened Boxes
  import opened Primitives

  /** A colour is black when every channel is below this. */
  const BlackThreshold: real := 0.0001

  /** Russian roulette starts once the bounce index exceeds this. */
  const RouletteAfter: nat := 4

  /** A path whose survival probability is below this is always killed. */
  const MinSurvival: real := 0.0001

  /** The floor applied to each channel of an absorbing medium's colour. */
  const AbsorptionFloor: real := 0.00001

  /** The reflectance and base colour of opaque dielectrics at normal incidence. */
  const DielectricF0: real := 0.04

  const White := Vec3(1.0, 1.0, 1.0)

  /** IsBlack: every channel below 0.0001. */
  predicate IsBlack(v: Vec3) {
    v.x < BlackThreshold && v.y < BlackThreshold && v.z < BlackThreshold
  }

  /** Componentwise product. */
  function Mul(a: Vec3, b: Vec3): Vec3 {
    Vec3(a.x * b.x, a.y * b.y, a.z * b.z)
  }

  /** Mix(a, b, t) = a * (1 - t) + b * t. */
  function Mix(a: Vec3, b: Vec3, t: real): Vec3 {
    Add(Scale(a, 1.0 - t), Scale(b, t))
  }

  /** The specular colour of an opaque material: 0.04 for a dielectric, the base colour for a
      metal, interpolated by Metallic. */
  function F0(mat: Material): (r: Vec3)
    ensures mat.metallic == 0.0 ==> r == Splat(DielectricF0)
    ensures mat.metallic == 1.0 ==> r == mat.baseColor
  {
    Mix(Splat(DielectricF0), mat.baseColor, mat.metallic)
  }

  // ---------------------------------------------------------------------------------------
  // Scatter: lobe choice and the sample's colour and WasRefracted flag

  /** Which branch of Scatter produced the sample. */
  datatype Lobe = Reflection | Refraction | Specular | Diffuse

  /** The probability of reflecting off a transmissive surface: 1 under total internal
      reflection, otherwise Schlick's approximation (computed numerically by the shader and
      passed in). */
  function Reflectance(cannotRefract: bool, schlick: real): real {
    if cannotRefract then 1.0 else schlick
  }

  /** A transmissive material (Transmission > 0) reflects when the draw is below the
      reflectance and refracts otherwise; an opaque one is specular when the draw is below
      Metallic and diffuse otherwise. */
  function ChooseLobe(mat: Material, reflectance: real, draw: real): (l: Lobe)
    ensures mat.transmission > 0.0 <==> (l.Reflection? || l.Refraction?)
  {
    if mat.transmission > 0.0 then
      if draw < reflectance then Reflection else Refraction
    else
      if draw < mat.metallic then Specular else Diffuse
  }

  /** Under total internal reflection every draw below 1 reflects. */
  lemma TotalInternalReflectionReflects(mat: Material, schlick: real, draw: real)
    requires mat.transmission > 0.0 && draw < 1.0
    ensures ChooseLobe(mat, Reflectance(true, schlick), draw) == Reflection
  {
  }

  /** ... but RandomFloat can return exactly 1 (for the output uint.MaxValue), and then
      the strict comparison sends the ray through the surface despite total internal
      reflection. */
  lemma TotalInternalReflectionAtDrawOne(mat: Material, schlick: real)
    requires mat.transmission > 0.0
    ensures ChooseLobe(mat, Reflectance(true, schlick), 1.0) == Refraction
  {
  }

  /** What the main loop uses of a BSDF sample (the direction is float shading and is
      left out). */
  datatype BsdfSample = BsdfSample(color: Vec3, wasRefracted: bool)

  /** Scatter's colour and flag: both transmissive lobes are white, refraction alone sets
      WasRefracted; a specular sample has colour F0 unless the reflected direction points
      below the surface (`specularAbove` false), which makes it black; a diffuse sample
      has the base colour. */
  function Scatter(mat: Material, reflectance: real, draw: real, specularAbove: bool): (s: BsdfSample)
    ensures s.wasRefracted <==> ChooseLobe(mat, reflectance, draw) == Refraction
    ensures mat.transmission <= 0.0 ==> !s.wasRefracted
    ensures mat.transmission > 0.0 ==> s.color == White && !IsBlack(s.color)
    ensures ChooseLobe(mat, reflectance, draw) == Diffuse ==> s.color == mat.baseColor
  {
    match ChooseLobe(mat, reflectance, draw)
    case Reflection => BsdfSample(White, false)
    case Refraction => BsdfSample(White, true)
    case Specular => BsdfSample(if specularAbove then F0(mat) else Zero, false)
    case Diffuse => BsdfSample(mat.baseColor, false)
  }

  /** A black sample, which ends the path, comes only from an opaque surface: a specular
      sample that went below the surface or whose F0 is black, or a diffuse sample off a
      black base colour. */
  lemma BlackSampleIsOpaque(mat: Material, reflectance: real, draw: real, specularAbove: bool)
    requires IsBlack(Scatter(mat, reflectance, draw, specularAbove).color)
    ensures mat.transmission <= 0.0
    ensures ChooseLobe(mat, reflectance, draw) == Specular ==> !specularAbove || IsBlack(F0(mat))
    ensures ChooseLobe(mat, reflectance, draw) == Diffuse ==> IsBlack(mat.baseColor)
  {
  }

  /** BlackSampleIsOpaque for the inputs of one bounce, when `black` holds. */
  lemma BlackSampleIsOpaqueWhen(black: bool, input: BounceInput)
    requires black ==> IsBlack(Scatter(input.mat, input.reflectance, input.lobeDraw, input.specularAbove).color)
    ensures black ==> input.mat.transmission <= 0.0
  {
    if black {
      BlackSampleIsOpaque(input.mat, input.reflectance, input.lobeDraw, input.specularAbove);
    }
  }

  // ---------------------------------------------------------------------------------------
  // The medium flag

  /** isInsideObject and insideMaterial. */
  datatype Medium = Medium(inside: bool, material: Material)

  /** The medium at the start of every path. */
  const Outside := Medium(false, DefaultMaterial)

  /** After a scattering event at a surface of material `hitMat`: a refraction through a
      transmissive surface toggles the flag, a reflection off one keeps it, an opaque surface
      puts the path outside; the medium's material becomes the hit material only while the
      path is inside. */
  function UpdateMedium(m: Medium, hitMat: Material, wasRefracted: bool): (r: Medium)
    ensures hitMat.transmission > 0.0 ==> r.inside == (m.inside != wasRefracted)
    ensures hitMat.transmission <= 0.0 ==> !r.inside
    ensures r.inside ==> r.material == hitMat
    ensures !r.inside ==> r.material == m.material
  {
    var inside :=
      if hitMat.transmission > 0.0 then
        if wasRefracted then !m.inside else m.inside
      else
        false;
    Medium(inside, if inside then hitMat else m.material)
  }

  /** While the path is inside, the medium it is in is transmissive. */
  predicate MediumOk(m: Medium) {
    m.inside ==> m.material.transmission > 0.0
  }

  /** After any scattering event MediumOk holds, whatever the medium before, the hit and
      the sample. */
  lemma UpdateEstablishesMediumOk(m: Medium, hitMat: Material, wasRefracted: bool)
    ensures MediumOk(UpdateMedium(m, hitMat, wasRefracted))
  {
  }

  /** Refracting into a transmissive object and straight back out leaves the path outside
      again, in the medium it last entered. */
  lemma InAndOut(hitMat: Material)
    requires hitMat.transmission > 0.0
    ensures UpdateMedium(Outside, hitMat, true) == Medium(true, hitMat)
    ensures UpdateMedium(Medium(true, hitMat), hitMat, true) == Medium(false, hitMat)
  {
  }

  // ---------------------------------------------------------------------------------------
  // One bounce and the bounce loop

  /** What the rest of the renderer supplies at one bounce: TraceRay's distance (float.MaxValue
      on a miss) and material, the roulette draw, Scatter's reflectance and lobe draw, and
      whether a specular reflection stays above the surface. */
  datatype BounceInput = BounceInput(
    distance: real,
    mat: Material,
    rouletteDraw: real,
    reflectance: real,
    lobeDraw: real,
    specularAbove: bool)

  /** The state carried across bounces. */
  datatype PathState = PathState(bounce: nat, throughput: Vec3, medium: Medium, radiance: Vec3)

  /** The state of a path leaving the camera. */
  const Start := PathState(0, White, Outside, Zero)

  /** Why the bounce loop ended. */
  datatype Termination = Miss | Emissive | Roulette | Black | BounceLimit

  /** The outcome of one bounce. */
  datatype Step = Stop(reason: Termination, last: PathState) | Continue(next: PathState)

  /** The largest channel: the survival probability. */
  function Survival(t: Vec3): (r: real)
    ensures r == t.x || r == t.y || r == t.z
    ensures t.x <= r && t.y <= r && t.z <= r
  {
    RealMax(t.x, RealMax(t.y, t.z))
  }

  /** A path is killed when the draw exceeds the survival probability or that probability
      is below 0.0001. */
  predicate RouletteKills(t: Vec3, draw: real) {
    draw > Survival(t) || Survival(t) < MinSurvival
  }

  /** A surviving path's throughput is divided by its survival probability, so its largest
      channel becomes exactly 1. */
  lemma RouletteNormalizes(t: Vec3, draw: real)
    requires !RouletteKills(t, draw)
    ensures Survival(Scale(t, 1.0 / Survival(t))) == 1.0
  {
    var s := Survival(t);
    assert s >= MinSurvival > 0.0;
    var k := 1.0 / s;
    var u := Scale(t, k);
    DivideBelow(t.x, s);
    DivideBelow(t.y, s);
    DivideBelow(t.z, s);
    assert u == Vec3(t.x / s, t.y / s, t.z / s);
  }

  /** Dividing a value at most s by a positive s gives at most 1, exactly 1 for s itself. */
  lemma DivideBelow(a: real, s: real)
    requires 0.0 < s && a <= s
    ensures a * (1.0 / s) == a / s <= 1.0
    ensures s / s == 1.0
  {
  }

  /** The colour of an absorbing medium: its base colour with every channel raised to at
      least 0.00001, so that its logarithm is defined. */
  function AbsorbingColor(mat: Material): (r: Vec3)
    ensures r.x > 0.0 && r.y > 0.0 && r.z > 0.0
  {
    Vec3(RealMax(AbsorptionFloor, mat.baseColor.x),
         RealMax(AbsorptionFloor, mat.baseColor.y),
         RealMax(AbsorptionFloor, mat.baseColor.z))
  }

  /** Absorption along a segment of length `distance` through the medium: applied only while
      inside. `transmittance(c, d)` stands for `Exp(Log(c) * -d)`. */
  function Absorb(t: Vec3, m: Medium, distance: real, transmittance: (Vec3, real) -> Vec3): (r: Vec3)
    ensures !m.inside ==> r == t
  {
    if m.inside then Mul(t, transmittance(AbsorbingColor(m.material), distance)) else t
  }

  /** One pass of the bounce loop body. */
  function Bounce(s: PathState, input: BounceInput, transmittance: (Vec3, real) -> Vec3): (r: Step)
    ensures r.Continue? ==> r.next.bounce == s.bounce + 1
    ensures r.Stop? ==> r.last.bounce == s.bounce && r.last.medium == s.medium
    ensures r.Stop? && r.reason == Miss <==> input.distance == FloatMax
    ensures r.Stop? && r.reason == Emissive <==>
      input.distance != FloatMax && input.mat.emissionStrength > 0.0
    ensures r.Stop? && r.reason == Roulette ==> s.bounce > RouletteAfter
    ensures r.Stop? && r.reason == Black ==>
      IsBlack(Scatter(input.mat, input.reflectance, input.lobeDraw, input.specularAbove).color)
    ensures r.Stop? ==> r.reason != BounceLimit
    ensures r.Stop? && r.reason != Emissive ==> r.last.radiance == s.radiance
    ensures r.Continue? ==> r.next.radiance == s.radiance
    ensures r.Continue? ==> MediumOk(r.next.medium)
  {
    if input.distance == FloatMax then
      Stop(Miss, s)
    else
      var t1 := Absorb(s.throughput, s.medium, input.distance, transmittance);
      if input.mat.emissionStrength > 0.0 then
        var emitted := Mul(t1, Scale(input.mat.emissionColor, input.mat.emissionStrength));
        Stop(Emissive, s.(throughput := t1, radiance := Add(s.radiance, emitted)))
      else if s.bounce > RouletteAfter && RouletteKills(t1, input.rouletteDraw) then
        Stop(Roulette, s.(throughput := t1))
      else
        var t2 := if s.bounce > RouletteAfter then Scale(t1, 1.0 / Survival(t1)) else t1;
        var sample := Scatter(input.mat, input.reflectance, input.lobeDraw, input.specularAbove);
        if IsBlack(sample.color) then
          Stop(Black, s.(throughput := t2))
        else
          UpdateEstablishesMediumOk(s.medium, input.mat, sample.wasRefracted);
          Continue(PathState(s.bounce + 1, Mul(t2, sample.color),
                             UpdateMedium(s.medium, input.mat, sample.wasRefracted), s.radiance))
  }

  /** The result of a path: why it ended and the state at that point. */
  datatype PathEnd = PathEnd(reason: Termination, last: PathState)

  /** The bounce loop `for (bounce = s.bounce; bounce < maxBounces; bounce++)`, with
      `world(k)` the inputs of bounce k. The loop ends at the bounce limit or at the first
      bounce whose body breaks out; every bounce before that hit a non-emissive surface;
      roulette only ends a path after bounce 4; only an emissive hit adds radiance; and
      while inside, the path's medium is transmissive throughout. */
  function RunPath(maxBounces: int, world: nat -> BounceInput, transmittance: (Vec3, real) -> Vec3,
                   s: PathState): (r: PathEnd)
    decreases maxBounces - s.bounce
    ensures s.bounce <= r.last.bounce
    ensures s.bounce <= maxBounces ==> r.last.bounce <= maxBounces
    ensures r.reason == BounceLimit <==> r.last.bounce >= maxBounces
    ensures r.reason == Miss <==> r.last.bounce < maxBounces && world(r.last.bounce).distance == FloatMax
    ensures r.reason == Emissive ==> world(r.last.bounce).mat.emissionStrength > 0.0
    ensures r.reason == Roulette ==> r.last.bounce > RouletteAfter
    ensures r.reason == Black ==> world(r.last.bounce).mat.transmission <= 0.0
    ensures forall k: nat :: s.bounce <= k < r.last.bounce ==>
      world(k).distance != FloatMax && world(k).mat.emissionStrength <= 0.0
    ensures r.reason != Emissive ==> r.last.radiance == s.radiance
    ensures MediumOk(s.medium) ==> MediumOk(r.last.medium)
  {
    if s.bounce >= maxBounces then
      PathEnd(BounceLimit, s)
    else
      var input := world(s.bounce);
      match Bounce(s, input, transmittance)
      case Stop(reason, last) =>
        BlackSampleIsOpaqueWhen(reason == Black, input);
        PathEnd(reason, last)
      case Continue(next) =>
        RunPath(maxBounces, world, transmittance, next)
  }

  /** A whole path from the camera: at most maxBounces bounce bodies run, the path never
      ends by roulette in its first five bounces, and it gathers radiance only from the
      emissive surface that ends it. */
  lemma {:induction false} TracePath(maxBounces: int, world: nat -> BounceInput,
                                     transmittance: (Vec3, real) -> Vec3)
    ensures var r := RunPath(maxBounces, world, transmittance, Start);
      && (maxBounces >= 0 ==> r.last.bounce <= maxBounces)
      && (r.reason == BounceLimit ==> r.last.bounce == if maxBounces < 0 then 0 else maxBounces)
      && (r.reason == Roulette ==> r.last.bounce >= 5)
      && (r.reason != Emissive ==> r.last.radiance == Zero)
      && (r.last.medium.inside ==> r.last.medium.material.transmission > 0.0)
  {
    var r := RunPath(maxBounces, world, transmittance, Start);
    assert MediumOk(Start.medium);
    if r.reason == BounceLimit && maxBounces >= 0 {
      assert r.last.bounce <= maxBounces;
    }
    if r.reason == BounceLimit && maxBounces < 0 {
      assert r.last == Start;
    }
  }
}
