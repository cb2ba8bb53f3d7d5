/**
 * The colour filters and command-line options of src/ffmpeg.rs: each filter
 * kind is a variant of one closed datatype carrying its `is_active` flag;
 * `Render` is `to_filter_string`, `Parse` is the `TryFrom<&Node>` of the four
 * kinds Kdenlive writes, and the `...Args` functions are `to_option_args`.
 *
 * `f32` values are kept as bit patterns; their `FromStr` and `Display` are
 * given as the two functions of a `Floats` value and never reimplemented.
 */
module Ffmpeg {
  import opened Wrappers
  import opened Strings
  import opened Xml
  import opened MltProperty

  // ---------------------------------------------------------------------
  // Values
  // ---------------------------------------------------------------------

  /** An `f32`, as its IEEE-754 bit pattern. */
  datatype F32 = F32(bits: bv32)

  const ZERO := F32(0)
  const ONE := F32(0x3F80_0000)

  /** `f32`'s `FromStr` (`parse`) and `Display` (`show`). */
  datatype Floats = Floats(parse: string -> Option<F32>, show: F32 -> string)

  type U32 = x: nat | x < U32_LIMIT
  type U64 = x: nat | x < U64_LIMIT

  /** `u32`'s `FromStr`. */
  function ParseTemperature(s: string): (r: Option<U32>)
    ensures r.Some? <==> ParseU32(s).Some?
    ensures r.Some? ==> r.value == ParseU32(s).value
  {
    match ParseU32(s)
    case None => None
    case Some(v) => Some(v as U32)
  }

  /** A temperature written in decimal reads back as itself. */
  lemma TemperatureRoundTrip(t: U32)
    ensures ParseTemperature(ShowNat(t)) == Some(t)
  {
    ParseShowUnsigned(t, U32_LIMIT);
  }

  /** A decimal number past the `u32` range is refused, not wrapped or saturated. */
  lemma TemperatureOutOfRange(n: nat)
    requires n >= U32_LIMIT
    ensures ParseTemperature(ShowNat(n)).None?
  {
    ShowNatValue(n);
    assert ShowNat(n)[0] != '+' by {
      assert IsDigit(ShowNat(n)[0]);
    }
  }

  // ---------------------------------------------------------------------
  // Filters
  // ---------------------------------------------------------------------

  datatype Filter =
    | Exposure(isActive: bool, exposure: F32, black: F32)
    | Lut(isActive: bool, file: string, interpolation: string)
    | Scale(isActive: bool, width: U64, height: U64)
    | Eq(isActive: bool, contrast: F32, brightness: F32, saturation: F32,
         gamma: F32, gammaR: F32, gammaG: F32, gammaB: F32)
    | Colortemp(isActive: bool, temperature: U32)
    | ColorBalance(isActive: bool,
                   shadowsRed: F32, shadowsGreen: F32, shadowsBlue: F32,
                   midtonesRed: F32, midtonesGreen: F32, midtonesBlue: F32,
                   highlightsRed: F32, highlightsGreen: F32, highlightsBlue: F32,
                   preserveLightness: bool)
    | Custom(isActive: bool, expression: string)

  datatype Kind = ExposureKind | LutKind | ScaleKind | EqKind | ColortempKind | ColorBalanceKind | CustomKind

  function KindOf(f: Filter): Kind
  {
    match f
    case Exposure(_, _, _) => ExposureKind
    case Lut(_, _, _) => LutKind
    case Scale(_, _, _) => ScaleKind
    case Eq(_, _, _, _, _, _, _, _) => EqKind
    case Colortemp(_, _) => ColortempKind
    case ColorBalance(_, _, _, _, _, _, _, _, _, _, _) => ColorBalanceKind
    case Custom(_, _) => CustomKind
  }

  /** The `Default` of each filter: every one starts inactive. */
  function Default(k: Kind): (f: Filter)
    ensures KindOf(f) == k && !f.isActive
  {
    match k
    case ExposureKind => Exposure(false, ZERO, ZERO)
    case LutKind => Lut(false, "", "tetrahedral")
    case ScaleKind => Scale(false, 0, 0)
    case EqKind => Eq(false, ONE, ZERO, ONE, ONE, ONE, ONE, ONE)
    case ColortempKind => Colortemp(false, 6500)
    case ColorBalanceKind => ColorBalance(false, ZERO, ZERO, ZERO, ZERO, ZERO, ZERO, ZERO, ZERO, ZERO, false)
    case CustomKind => Custom(false, "")
  }

  // ---------------------------------------------------------------------
  // Rendering (`to_filter_string`)
  // ---------------------------------------------------------------------

  /** `Filter::to_filter_string`: the ffmpeg text of one filter, options in a fixed order. */
  function Render(f: Filter, fl: Floats): (r: string)
    ensures !f.Custom? ==> |r| > 0
  {
    var show := fl.show;
    match f
    case Exposure(_, e, b) =>
      "exposure=exposure=" + show(e) + ":black=" + show(b)
    case Lut(_, file, interp) =>
      "lut3d=file=" + file + ":interp=" + interp
    case Scale(_, w, h) =>
      "scale=" + ShowNat(w) + ":" + ShowNat(h)
    case Eq(_, c, b, s, g, gr, gg, gb) =>
      "eq=contrast=" + show(c) + ":brightness=" + show(b) + ":saturation=" + show(s)
      + ":gamma=" + show(g) + ":gamma_r=" + show(gr) + ":gamma_g=" + show(gg) + ":gamma_b=" + show(gb)
    case Colortemp(_, t) =>
      "colortemperature=temperature=" + ShowNat(t) + ":pl=1"
    case ColorBalance(_, rs, gs, bs, rm, gm, bm, rh, gh, bh, _) =>
      "colorbalance=rs=" + show(rs) + ":gs=" + show(gs) + ":bs=" + show(bs)
      + ":rm=" + show(rm) + ":gm=" + show(gm) + ":bm=" + show(bm)
      + ":rh=" + show(rh) + ":gh=" + show(gh) + ":bh=" + show(bh)
    case Custom(_, e) => e
  }

  /** The ffmpeg filter name written before the first `=`. */
  function FilterName(f: Filter): string
    requires !f.Custom?
  {
    match f
    case Exposure(_, _, _) => "exposure"
    case Lut(_, _, _) => "lut3d"
    case Scale(_, _, _) => "scale"
    case Eq(_, _, _, _, _, _, _, _) => "eq"
    case Colortemp(_, _) => "colortemperature"
    case ColorBalance(_, _, _, _, _, _, _, _, _, _, _) => "colorbalance"
  }

  /** `p` begins `s`. */
  predicate IsPrefix(p: string, s: string)
  {
    |p| <= |s| && s[..|p|] == p
  }

  lemma PrefixExtends(p: string, s: string, t: string)
    requires IsPrefix(p, s)
    ensures IsPrefix(p, s + t)
  {
    assert (s + t)[..|p|] == s[..|p|];
  }

  /** Every filter but a custom one is written as its ffmpeg name, `=`, then its options. */
  lemma RenderStartsWithName(f: Filter, fl: Floats)
    requires !f.Custom?
    ensures IsPrefix(FilterName(f) + "=", Render(f, fl)) && '=' !in FilterName(f)
  {
    NameHasNoEquals(f);
    match f
    case Exposure(_, _, _) => ExposureStartsWithName(f, fl);
    case Lut(_, _, _) => LutStartsWithName(f, fl);
    case Scale(_, _, _) => ScaleStartsWithName(f, fl);
    case Eq(_, _, _, _, _, _, _, _) => EqStartsWithName(f, fl);
    case Colortemp(_, _) => ColortempStartsWithName(f, fl);
    case ColorBalance(_, _, _, _, _, _, _, _, _, _, _) => ColorBalanceStartsWithName(f, fl);
  }

  lemma NameHasNoEquals(f: Filter)
    requires !f.Custom?
    ensures '=' !in FilterName(f)
  {
  }

  lemma ExposureStartsWithName(f: Filter, fl: Floats)
    requires f.Exposure?
    ensures IsPrefix(FilterName(f) + "=", Render(f, fl))
  {
    assert FilterName(f) + "=" == "exposure=";
    var s := "exposure=exposure=" + fl.show(f.exposure);
    PrefixExtends("exposure=", "exposure=exposure=", fl.show(f.exposure));
    PrefixExtends("exposure=", s, ":black=");
    PrefixExtends("exposure=", s + ":black=", fl.show(f.black));
  }

  lemma LutStartsWithName(f: Filter, fl: Floats)
    requires f.Lut?
    ensures IsPrefix(FilterName(f) + "=", Render(f, fl))
  {
    assert FilterName(f) + "=" == "lut3d=";
    PrefixExtends("lut3d=", "lut3d=file=", f.file);
    PrefixExtends("lut3d=", "lut3d=file=" + f.file, ":interp=");
    PrefixExtends("lut3d=", "lut3d=file=" + f.file + ":interp=", f.interpolation);
  }

  lemma ScaleStartsWithName(f: Filter, fl: Floats)
    requires f.Scale?
    ensures IsPrefix(FilterName(f) + "=", Render(f, fl))
  {
    assert FilterName(f) + "=" == "scale=";
    PrefixExtends("scale=", "scale=", ShowNat(f.width));
    PrefixExtends("scale=", "scale=" + ShowNat(f.width), ":");
    PrefixExtends("scale=", "scale=" + ShowNat(f.width) + ":", ShowNat(f.height));
  }

  lemma ColortempStartsWithName(f: Filter, fl: Floats)
    requires f.Colortemp?
    ensures IsPrefix(FilterName(f) + "=", Render(f, fl))
  {
    assert FilterName(f) + "=" == "colortemperature=";
    PrefixExtends("colortemperature=", "colortemperature=temperature=", ShowNat(f.temperature));
    PrefixExtends("colortemperature=", "colortemperature=temperature=" + ShowNat(f.temperature), ":pl=1");
  }

  lemma EqStartsWithName(f: Filter, fl: Floats)
    requires f.Eq?
    ensures IsPrefix(FilterName(f) + "=", Render(f, fl))
  {
    assert FilterName(f) + "=" == "eq=";
    var show := fl.show;
    var t := "eq=contrast=" + show(f.contrast) + ":brightness=" + show(f.brightness) + ":saturation=" + show(f.saturation)
      + ":gamma=" + show(f.gamma) + ":gamma_r=" + show(f.gammaR) + ":gamma_g=" + show(f.gammaG) + ":gamma_b=" + show(f.gammaB);
    assert Render(f, fl) == t;
    assert t[..3] == "eq=";
  }

  lemma ColorBalanceStartsWithName(f: Filter, fl: Floats)
    requires f.ColorBalance?
    ensures IsPrefix(FilterName(f) + "=", Render(f, fl))
  {
    assert FilterName(f) + "=" == "colorbalance=";
    var show := fl.show;
    var t := "colorbalance=rs=" + show(f.shadowsRed) + ":gs=" + show(f.shadowsGreen) + ":bs=" + show(f.shadowsBlue)
      + ":rm=" + show(f.midtonesRed) + ":gm=" + show(f.midtonesGreen) + ":bm=" + show(f.midtonesBlue)
      + ":rh=" + show(f.highlightsRed) + ":gh=" + show(f.highlightsGreen) + ":bh=" + show(f.highlightsBlue);
    assert Render(f, fl) == t;
    assert t[..13] == "colorbalance=";
  }

  /** Whether a filter is active never changes its text. */
  lemma RenderIgnoresActivity(f: Filter, fl: Floats, active: bool)
    ensures Render(f.(isActive := active), fl) == Render(f, fl)
  {
  }

  /** `exposure=exposure={e}:black={b}`, pinned at the default values. */
  lemma RenderExposureText(fl: Floats)
    requires fl.show(ZERO) == "0"
    ensures Render(Default(ExposureKind), fl) == "exposure=exposure=0:black=0"
  {
  }

  /** `lut3d=file={f}:interp={i}`, pinned at the default: no file and `tetrahedral` interpolation. */
  lemma RenderLutText(fl: Floats)
    ensures Render(Default(LutKind), fl) == "lut3d=file=:interp=tetrahedral"
  {
  }

  /** `scale={w}:{h}`, decimal and without keys. */
  lemma RenderScaleText(fl: Floats)
    ensures Render(Scale(true, 1920, 1080), fl) == "scale=1920:1080"
  {
    assert ShowNat(1920) == "1920";
    assert ShowNat(1080) == "1080";
  }

  /** The two numbers of `scale` are read back from the text after `scale=`, split at `:`. */
  lemma ScaleReadsBack(f: Filter, fl: Floats)
    requires f.Scale?
    ensures var t := Render(f, fl);
      && IsPrefix("scale=", t)
      && var parts := Split(t[6..], ':');
      && |parts| == 2 && ParseU64(parts[0]) == Some(f.width) && ParseU64(parts[1]) == Some(f.height)
  {
    var w := ShowNat(f.width);
    var h := ShowNat(f.height);
    var t := Render(f, fl);
    assert t == "scale=" + (w + ":" + h);
    assert t[..6] == "scale=";
    assert t[6..] == w + ":" + h;
    assert ':' !in w && ':' !in h by {
      assert forall i :: 0 <= i < |w| ==> IsDigit(w[i]);
      assert forall i :: 0 <= i < |h| ==> IsDigit(h[i]);
    }
    assert Join([':'], [w, h]) == w + ":" + h by {
      assert [w, h][1..] == [h];
    }
    SplitJoin([w, h], ':');
    ParseShowUnsigned(f.width, U64_LIMIT);
    ParseShowUnsigned(f.height, U64_LIMIT);
  }

  /** All seven keys of `eq`, in the fixed order, pinned at the default values. */
  lemma RenderEqText(fl: Floats)
    requires fl.show(ZERO) == "0" && fl.show(ONE) == "1"
    ensures Render(Default(EqKind), fl) ==
      "eq=contrast=1" + ":brightness=0" + ":saturation=1" + ":gamma=1" + ":gamma_r=1" + ":gamma_g=1" + ":gamma_b=1"
  {
    assert "eq=contrast=" + "1" == "eq=contrast=1";
    assert ":brightness=" + "0" == ":brightness=0";
    assert ":saturation=" + "1" == ":saturation=1";
    assert ":gamma=" + "1" == ":gamma=1";
    assert ":gamma_r=" + "1" == ":gamma_r=1";
    assert ":gamma_g=" + "1" == ":gamma_g=1";
    assert ":gamma_b=" + "1" == ":gamma_b=1";
  }

  /** `colortemperature=temperature={t}:pl=1`, pinned at the default 6500. */
  lemma RenderColortempText(fl: Floats)
    ensures Render(Default(ColortempKind), fl) == "colortemperature=temperature=6500:pl=1"
  {
    assert ShowNat(6500) == "6500";
  }

  /** The nine offsets `rs` to `bh` in order; `preserve_lightness` is never written. */
  lemma RenderColorBalanceText(fl: Floats, preserve: bool)
    requires fl.show(ZERO) == "0"
    ensures Render(ColorBalance(true, ZERO, ZERO, ZERO, ZERO, ZERO, ZERO, ZERO, ZERO, ZERO, preserve), fl) ==
      "colorbalance=rs=0" + ":gs=0" + ":bs=0" + ":rm=0" + ":gm=0" + ":bm=0" + ":rh=0" + ":gh=0" + ":bh=0"
  {
    assert "colorbalance=rs=" + "0" == "colorbalance=rs=0";
    assert ":gs=" + "0" == ":gs=0";
    assert ":bs=" + "0" == ":bs=0";
    assert ":rm=" + "0" == ":rm=0";
    assert ":gm=" + "0" == ":gm=0";
    assert ":bm=" + "0" == ":bm=0";
    assert ":rh=" + "0" == ":rh=0";
    assert ":gh=" + "0" == ":gh=0";
    assert ":bh=" + "0" == ":bh=0";
  }

  /** `preserve_lightness` is never written: it does not change the text of any colour balance. */
  lemma ColorBalanceIgnoresLightness(f: Filter, fl: Floats, preserve: bool)
    requires f.ColorBalance?
    ensures Render(f.(preserveLightness := preserve), fl) == Render(f, fl)
  {
  }

  /** A custom filter is its expression verbatim. */
  lemma RenderCustomText(f: Filter, fl: Floats)
    requires f.Custom?
    ensures Render(f, fl) == f.expression
  {
  }

  // ---------------------------------------------------------------------
  // Recognising MLT filter elements (`TryFrom<&Node>`)
  // ---------------------------------------------------------------------

  /** The filter kinds that can be read back from an MLT `<filter>` element. */
  datatype Service = LutService | EqService | ExposureService | ColortempService

  /** The exact `mlt_service` value of each kind. */
  function ServiceId(s: Service): string
  {
    match s
    case ExposureService => "avfilter.exposure"
    case LutService => "avfilter.lut3d"
    case EqService => "avfilter.eq"
    case ColortempService => "avfilter.colortemperature"
  }

  function ServiceOf(f: Filter): Option<Service>
  {
    match f
    case Exposure(_, _, _) => Some(ExposureService)
    case Lut(_, _, _) => Some(LutService)
    case Eq(_, _, _, _, _, _, _, _) => Some(EqService)
    case Colortemp(_, _) => Some(ColortempService)
    case _ => None
  }

  /** `disable` read as an `i32`; absent or unparseable counts as 0. */
  predicate Disabled(n: Node)
  {
    var disable := match GetPropertyValue(n, "disable", ParseI32) case Some(v) => v case None => 0;
    disable == 1
  }

  /** The `mlt_service` property names the kind. */
  predicate HasService(n: Node, s: Service)
  {
    PropertyText(n, "mlt_service") == Some(ServiceId(s))
  }

  /** A float-valued `av.*` property of the element. */
  function FloatProperty(n: Node, name: string, fl: Floats): Option<F32>
  {
    GetPropertyValue(n, name, fl.parse)
  }

  /** Exposure needs `av.exposure` and `av.black`. */
  function ParseExposure(n: Node, fl: Floats): (r: Option<Filter>)
    ensures r.Some? <==> (HasService(n, ExposureService)
      && FloatProperty(n, "av.exposure", fl).Some? && FloatProperty(n, "av.black", fl).Some?)
    ensures r.Some? ==> (r.value.Exposure? && r.value.isActive == !Disabled(n)
      && Some(r.value.exposure) == FloatProperty(n, "av.exposure", fl)
      && Some(r.value.black) == FloatProperty(n, "av.black", fl))
  {
    if !HasService(n, ExposureService) then None
    else
      var exposure :- FloatProperty(n, "av.exposure", fl);
      var black :- FloatProperty(n, "av.black", fl);
      Some(Exposure(!Disabled(n), exposure, black))
  }

  /** A 3D LUT needs `av.file` and `av.interp`, both taken as text. */
  function ParseLut(n: Node, fl: Floats): (r: Option<Filter>)
    ensures r.Some? <==> (HasService(n, LutService)
      && PropertyText(n, "av.file").Some? && PropertyText(n, "av.interp").Some?)
    ensures r.Some? ==> (r.value.Lut? && r.value.isActive == !Disabled(n)
      && Some(r.value.file) == PropertyText(n, "av.file")
      && Some(r.value.interpolation) == PropertyText(n, "av.interp"))
  {
    if !HasService(n, LutService) then None
    else
      var file :- PropertyText(n, "av.file");
      var interpolation :- PropertyText(n, "av.interp");
      Some(Lut(!Disabled(n), file, interpolation))
  }

  /** `eq` needs all seven of its `av.*` values. */
  function ParseEq(n: Node, fl: Floats): (r: Option<Filter>)
    ensures r.Some? <==> (HasService(n, EqService)
      && FloatProperty(n, "av.contrast", fl).Some? && FloatProperty(n, "av.brightness", fl).Some?
      && FloatProperty(n, "av.saturation", fl).Some? && FloatProperty(n, "av.gamma", fl).Some?
      && FloatProperty(n, "av.gamma_r", fl).Some? && FloatProperty(n, "av.gamma_g", fl).Some?
      && FloatProperty(n, "av.gamma_b", fl).Some?)
    ensures r.Some? ==> (r.value.Eq? && r.value.isActive == !Disabled(n)
      && Some(r.value.contrast) == FloatProperty(n, "av.contrast", fl)
      && Some(r.value.brightness) == FloatProperty(n, "av.brightness", fl)
      && Some(r.value.saturation) == FloatProperty(n, "av.saturation", fl)
      && Some(r.value.gamma) == FloatProperty(n, "av.gamma", fl)
      && Some(r.value.gammaR) == FloatProperty(n, "av.gamma_r", fl)
      && Some(r.value.gammaG) == FloatProperty(n, "av.gamma_g", fl)
      && Some(r.value.gammaB) == FloatProperty(n, "av.gamma_b", fl))
  {
    if !HasService(n, EqService) then None
    else
      var contrast :- FloatProperty(n, "av.contrast", fl);
      var brightness :- FloatProperty(n, "av.brightness", fl);
      var saturation :- FloatProperty(n, "av.saturation", fl);
      var gamma :- FloatProperty(n, "av.gamma", fl);
      var gammaR :- FloatProperty(n, "av.gamma_r", fl);
      var gammaG :- FloatProperty(n, "av.gamma_g", fl);
      var gammaB :- FloatProperty(n, "av.gamma_b", fl);
      Some(Eq(!Disabled(n), contrast, brightness, saturation, gamma, gammaR, gammaG, gammaB))
  }

  /** Colour temperature needs `av.temperature` as a `u32`. */
  function ParseColortemp(n: Node, fl: Floats): (r: Option<Filter>)
    ensures r.Some? <==> (HasService(n, ColortempService)
      && GetPropertyValue(n, "av.temperature", ParseTemperature).Some?)
    ensures r.Some? ==> (r.value.Colortemp? && r.value.isActive == !Disabled(n)
      && Some(r.value.temperature) == GetPropertyValue(n, "av.temperature", ParseTemperature))
  {
    if !HasService(n, ColortempService) then None
    else
      var temperature :- GetPropertyValue(n, "av.temperature", ParseTemperature);
      Some(Colortemp(!Disabled(n), temperature))
  }

  /** `TryFrom<&Node>` of one kind: only an element naming that kind is accepted, and the result is of that kind. */
  function Parse(s: Service, n: Node, fl: Floats): (r: Option<Filter>)
    ensures r.Some? ==> HasService(n, s) && ServiceOf(r.value) == Some(s) && r.value.isActive == !Disabled(n)
  {
    match s
    case ExposureService => ParseExposure(n, fl)
    case LutService => ParseLut(n, fl)
    case EqService => ParseEq(n, fl)
    case ColortempService => ParseColortemp(n, fl)
  }

  /** `disable` of 1 (after any time stamp, as an `i32`: `1`, `+1`, `01`) and only that deactivates. */
  lemma DisabledIff(n: Node)
    ensures Disabled(n) <==> GetPropertyValue(n, "disable", ParseI32) == Some(1)
  {
  }

  /** The four identifiers are pairwise different, so at most one kind accepts an element. */
  lemma AtMostOneService(s1: Service, s2: Service, n: Node, fl: Floats)
    requires Parse(s1, n, fl).Some? && Parse(s2, n, fl).Some?
    ensures s1 == s2
  {
    assert ServiceId(s1) == ServiceId(s2);
  }

  /**
   * The chain of `if let Ok(..) = ...try_into()` in `get_filter_strings`:
   * lut3d, then eq, then exposure, then colour temperature.
   */
  function Recognise(n: Node, fl: Floats): (r: Option<Filter>)
    ensures r.Some? ==> ServiceOf(r.value).Some? && Parse(ServiceOf(r.value).value, n, fl) == r
    ensures r.None? ==> forall s :: Parse(s, n, fl).None?
  {
    var lut := Parse(LutService, n, fl);
    if lut.Some? then lut
    else
      var eq := Parse(EqService, n, fl);
      if eq.Some? then eq
      else
        var exposure := Parse(ExposureService, n, fl);
        if exposure.Some? then exposure
        else Parse(ColortempService, n, fl)
  }

  /** Since at most one kind accepts an element, the order of the chain is immaterial. */
  lemma RecogniseOwnService(s: Service, n: Node, fl: Floats)
    requires Parse(s, n, fl).Some?
    ensures Recognise(n, fl) == Parse(s, n, fl)
  {
    var r := Recognise(n, fl);
    AtMostOneService(ServiceOf(r.value).value, s, n, fl);
  }

  // ---------------------------------------------------------------------
  // Round trip: the element a filter is written as is read back as that filter
  // ---------------------------------------------------------------------

  /** A value that the text form carries unchanged: non-empty, with no `=`, and read back as itself. */
  predicate ShowsFaithfully(fl: Floats, x: F32)
  {
    fl.show(x) != "" && '=' !in fl.show(x) && fl.parse(fl.show(x)) == Some(x)
  }

  /** A text value that survives the lookup: non-empty (an empty element has no text) and free of `=`. */
  predicate PlainText(v: string)
  {
    v != "" && '=' !in v
  }

  /** Every value of the filter survives being written as a property. */
  predicate Writable(f: Filter, fl: Floats)
  {
    match f
    case Exposure(_, e, b) => ShowsFaithfully(fl, e) && ShowsFaithfully(fl, b)
    case Lut(_, file, interpolation) => PlainText(file) && PlainText(interpolation)
    case Eq(_, c, br, sa, g, gr, gg, gb) =>
      ShowsFaithfully(fl, c) && ShowsFaithfully(fl, br) && ShowsFaithfully(fl, sa) && ShowsFaithfully(fl, g)
      && ShowsFaithfully(fl, gr) && ShowsFaithfully(fl, gg) && ShowsFaithfully(fl, gb)
    case Colortemp(_, _) => true
    case _ => false
  }

  /** The `av.*` properties of a Kdenlive `<filter>` element holding the filter. */
  function ValueProperties(f: Filter, fl: Floats): (r: seq<(string, string)>)
    requires ServiceOf(f).Some?
    ensures forall i :: 0 <= i < |r| ==> |r[i].0| > 3 && r[i].0[..3] == "av."
    ensures forall i, j :: 0 <= i < j < |r| ==> r[i].0 != r[j].0
  {
    match f
    case Exposure(_, e, b) => [("av.exposure", fl.show(e)), ("av.black", fl.show(b))]
    case Lut(_, file, interpolation) => [("av.file", file), ("av.interp", interpolation)]
    case Eq(_, c, br, sa, g, gr, gg, gb) =>
      [("av.contrast", fl.show(c)), ("av.brightness", fl.show(br)), ("av.saturation", fl.show(sa)),
       ("av.gamma", fl.show(g)), ("av.gamma_r", fl.show(gr)), ("av.gamma_g", fl.show(gg)), ("av.gamma_b", fl.show(gb))]
    case Colortemp(_, t) => [("av.temperature", ShowNat(t))]
  }

  /** The service, the values, and `disable` set to 1 exactly when the filter is inactive. */
  function FilterProperties(f: Filter, fl: Floats): seq<(string, string)>
    requires ServiceOf(f).Some?
  {
    [("mlt_service", ServiceId(ServiceOf(f).value))] + ValueProperties(f, fl) + (if f.isActive then [] else [("disable", "1")])
  }

  function FilterElement(f: Filter, fl: Floats): Node
    requires ServiceOf(f).Some?
  {
    Element("filter", [], PropertyLeaves(FilterProperties(f, fl)))
  }

  /** A pair found in a flat element is read back as its value. */
  lemma FlatLookup<T>(props: seq<(string, string)>, name: string, v: string, parse: string -> Option<T>)
    requires LookupPair(props, name) == Some(v) && PlainText(v)
    ensures GetPropertyValue(Element("filter", [], PropertyLeaves(props)), name, parse) == parse(v)
  {
    FlatElementProperty("filter", [], props, name, parse);
  }

  lemma {:induction false} LookupPairConcat(a: seq<(string, string)>, b: seq<(string, string)>, name: string)
    ensures LookupPair(a + b, name) == if LookupPair(a, name).Some? then LookupPair(a, name) else LookupPair(b, name)
  {
    if |a| > 0 {
      assert (a + b)[1..] == a[1..] + b;
      LookupPairConcat(a[1..], b, name);
    } else {
      assert a + b == b;
    }
  }

  lemma {:induction false} LookupPairAbsent(props: seq<(string, string)>, name: string)
    requires forall i :: 0 <= i < |props| ==> props[i].0 != name
    ensures LookupPair(props, name).None?
  {
    if |props| > 0 {
      LookupPairAbsent(props[1..], name);
    }
  }

  lemma ShowNatPlain(n: nat)
    ensures PlainText(ShowNat(n))
  {
  }

  lemma ParseI32One()
    ensures ParseI32("1") == Some(1)
  {
    ParseShowUnsigned(1, 0x8000_0000);
    assert ShowNat(1) == "1";
  }

  /** `disable` is written exactly for an inactive filter, as `1`. */
  lemma DisabledOfElement(f: Filter, fl: Floats)
    requires ServiceOf(f).Some?
    ensures Disabled(FilterElement(f, fl)) == !f.isActive
  {
    var props := FilterProperties(f, fl);
    var head := [("mlt_service", ServiceId(ServiceOf(f).value))] + ValueProperties(f, fl);
    assert "disable"[..3] == "dis";
    assert forall i :: 0 <= i < |head| ==> head[i].0 != "disable";
    LookupPairAbsent(head, "disable");
    if f.isActive {
      assert props == head;
      FlatElementProperty("filter", [], props, "disable", ParseI32);
    } else {
      assert props == head + [("disable", "1")];
      LookupPairConcat(head, [("disable", "1")], "disable");
      FlatLookup(props, "disable", "1", ParseI32);
      ParseI32One();
    }
  }

  lemma {:induction false} LookupPairDistinct(props: seq<(string, string)>, k: nat)
    requires k < |props|
    requires forall i, j :: 0 <= i < j < |props| ==> props[i].0 != props[j].0
    ensures LookupPair(props, props[k].0) == Some(props[k].1)
  {
    if k > 0 {
      LookupPairDistinct(props[1..], k - 1);
    }
  }

  /** Each `av.*` value of the element is read back as the text it was written as. */
  lemma ReadValue<T>(f: Filter, fl: Floats, k: nat, parse: string -> Option<T>)
    requires ServiceOf(f).Some? && k < |ValueProperties(f, fl)| && PlainText(ValueProperties(f, fl)[k].1)
    ensures GetPropertyValue(FilterElement(f, fl), ValueProperties(f, fl)[k].0, parse) == parse(ValueProperties(f, fl)[k].1)
  {
    var values := ValueProperties(f, fl);
    var name := values[k].0;
    var service := [("mlt_service", ServiceId(ServiceOf(f).value))];
    var tail := if f.isActive then [] else [("disable", "1")];
    assert FilterProperties(f, fl) == service + (values + tail);
    assert "mlt_service"[..3] == "mlt";
    LookupPairAbsent(service, name);
    LookupPairDistinct(values, k);
    LookupPairConcat(values, tail, name);
    LookupPairConcat(service, values + tail, name);
    FlatLookup(FilterProperties(f, fl), name, values[k].1, parse);
  }

  /** The element names the filter's own kind. */
  lemma ServiceOfElement(f: Filter, fl: Floats)
    requires ServiceOf(f).Some?
    ensures HasService(FilterElement(f, fl), ServiceOf(f).value)
  {
    var id := ServiceId(ServiceOf(f).value);
    assert '=' !in id;
    FlatLookup(FilterProperties(f, fl), "mlt_service", id, ParseString);
  }

  /** Both exposure values are read back as written. */
  lemma ReadExposureValues(f: Filter, fl: Floats)
    requires f.Exposure? && Writable(f, fl)
    ensures var e := FilterElement(f, fl);
      && FloatProperty(e, "av.exposure", fl) == Some(f.exposure)
      && FloatProperty(e, "av.black", fl) == Some(f.black)
  {
    var vs := ValueProperties(f, fl);
    assert vs[0] == ("av.exposure", fl.show(f.exposure));
    assert vs[1] == ("av.black", fl.show(f.black));
    ReadValue(f, fl, 0, fl.parse);
    ReadValue(f, fl, 1, fl.parse);
  }

  lemma ParseExposureElement(f: Filter, fl: Floats)
    requires f.Exposure? && Writable(f, fl)
    ensures Parse(ExposureService, FilterElement(f, fl), fl) == Some(f)
  {
    ServiceOfElement(f, fl);
    DisabledOfElement(f, fl);
    ReadExposureValues(f, fl);
    var r := ParseExposure(FilterElement(f, fl), fl);
    assert r.Some?;
    assert r.value == Exposure(f.isActive, f.exposure, f.black);
  }

  lemma ParseLutElement(f: Filter, fl: Floats)
    requires f.Lut? && Writable(f, fl)
    ensures Parse(LutService, FilterElement(f, fl), fl) == Some(f)
  {
    ServiceOfElement(f, fl);
    DisabledOfElement(f, fl);
    ReadValue(f, fl, 0, ParseString);
    ReadValue(f, fl, 1, ParseString);
  }

  /** The first four `eq` values are read back as written. */
  lemma ReadEqLevels(f: Filter, fl: Floats)
    requires f.Eq? && Writable(f, fl)
    ensures var e := FilterElement(f, fl);
      && FloatProperty(e, "av.contrast", fl) == Some(f.contrast)
      && FloatProperty(e, "av.brightness", fl) == Some(f.brightness)
      && FloatProperty(e, "av.saturation", fl) == Some(f.saturation)
      && FloatProperty(e, "av.gamma", fl) == Some(f.gamma)
  {
    var vs := ValueProperties(f, fl);
    assert vs[0] == ("av.contrast", fl.show(f.contrast));
    assert vs[1] == ("av.brightness", fl.show(f.brightness));
    assert vs[2] == ("av.saturation", fl.show(f.saturation));
    assert vs[3] == ("av.gamma", fl.show(f.gamma));
    ReadValue(f, fl, 0, fl.parse);
    ReadValue(f, fl, 1, fl.parse);
    ReadValue(f, fl, 2, fl.parse);
    ReadValue(f, fl, 3, fl.parse);
  }

  /** The three per-channel `eq` gammas are read back as written. */
  lemma ReadEqGammas(f: Filter, fl: Floats)
    requires f.Eq? && Writable(f, fl)
    ensures var e := FilterElement(f, fl);
      && FloatProperty(e, "av.gamma_r", fl) == Some(f.gammaR)
      && FloatProperty(e, "av.gamma_g", fl) == Some(f.gammaG)
      && FloatProperty(e, "av.gamma_b", fl) == Some(f.gammaB)
  {
    var vs := ValueProperties(f, fl);
    assert vs[4] == ("av.gamma_r", fl.show(f.gammaR));
    assert vs[5] == ("av.gamma_g", fl.show(f.gammaG));
    assert vs[6] == ("av.gamma_b", fl.show(f.gammaB));
    ReadValue(f, fl, 4, fl.parse);
    ReadValue(f, fl, 5, fl.parse);
    ReadValue(f, fl, 6, fl.parse);
  }

  lemma ParseEqElement(f: Filter, fl: Floats)
    requires f.Eq? && Writable(f, fl)
    ensures Parse(EqService, FilterElement(f, fl), fl) == Some(f)
  {
    ServiceOfElement(f, fl);
    DisabledOfElement(f, fl);
    ReadEqLevels(f, fl);
    ReadEqGammas(f, fl);
  }

  /** The temperature is read back as written. */
  lemma ReadTemperature(f: Filter, fl: Floats)
    requires f.Colortemp?
    ensures GetPropertyValue(FilterElement(f, fl), "av.temperature", ParseTemperature) == Some(f.temperature)
  {
    var t := f.temperature;
    assert ValueProperties(f, fl)[0] == ("av.temperature", ShowNat(t));
    ShowNatPlain(t);
    ReadValue(f, fl, 0, ParseTemperature);
    ParseShowUnsigned(t, U32_LIMIT);
  }

  lemma ParseColortempElement(f: Filter, fl: Floats)
    requires f.Colortemp?
    ensures Parse(ColortempService, FilterElement(f, fl), fl) == Some(f)
  {
    ServiceOfElement(f, fl);
    DisabledOfElement(f, fl);
    ReadTemperature(f, fl);
    var e := FilterElement(f, fl);
    var t := f.temperature;
    var r := ParseColortemp(e, fl);
    assert r.Some?;
    assert r.value == Colortemp(f.isActive, t);
  }

  /**
   * Reading back: a lut3d, eq, exposure or colour temperature filter written
   * as a Kdenlive `<filter>` element is recognised as exactly that filter,
   * including whether it is active.
   */
  lemma RecogniseFilterElement(f: Filter, fl: Floats)
    requires ServiceOf(f).Some? && Writable(f, fl)
    ensures Recognise(FilterElement(f, fl), fl) == Some(f)
  {
    var e := FilterElement(f, fl);
    match f
    case Exposure(_, _, _) =>
      ParseExposureElement(f, fl);
      RecogniseOwnService(ExposureService, e, fl);
    case Lut(_, _, _) =>
      ParseLutElement(f, fl);
      RecogniseOwnService(LutService, e, fl);
    case Eq(_, _, _, _, _, _, _, _) =>
      ParseEqElement(f, fl);
      RecogniseOwnService(EqService, e, fl);
    case Colortemp(_, _) =>
      ParseColortempElement(f, fl);
      RecogniseOwnService(ColortempService, e, fl);
  }

  /**
   * The Kdenlive `<filter id="filter6">` of the `exposure_from_xml` example,
   * without its whitespace text, with its key-frame time stamp left open.
   */
  function ExampleExposureFilter(stamp: string): Node
  {
    Element("filter", [("id", "filter6")], PropertyLeaves(ExampleExposureProperties(stamp)))
  }

  /** The document root holding the example filter. */
  function ExampleRoot(stamp: string): Node
  {
    Element("", [], [ExampleExposureFilter(stamp)])
  }

  function ExampleExposureProperties(stamp: string): seq<(string, string)>
  {
    [("mlt_service", "avfilter.exposure"), ("kdenlive_id", "avfilter.exposure"),
     ("av.exposure", stamp + "=0"), ("av.black", stamp + "=0"),
     ("kdenlive:collapsed", "1"), ("disable", "1")]
  }

  /** The example's lookups, seen from the document root. */
  lemma ExampleLookup<T>(stamp: string, name: string, v: string, parse: string -> Option<T>)
    requires LookupPair(ExampleExposureProperties(stamp), name) == Some(v) && v != ""
    ensures GetPropertyValue(ExampleRoot(stamp), name, parse) == parse(StripTimestamp(v))
  {
    FlatElementProperty("filter", [("id", "filter6")], ExampleExposureProperties(stamp), name, parse);
    WrappedProperty("", [], ExampleExposureFilter(stamp), name, parse);
  }

  lemma LookupPairStep(props: seq<(string, string)>, k: nat, name: string)
    requires k < |props|
    ensures LookupPair(props[k..], name) == if props[k].0 == name then Some(props[k].1) else LookupPair(props[k + 1..], name)
  {
    assert props[k..][1..] == props[k + 1..];
  }

  /** The example's four relevant properties, found past the ones that precede them. */
  lemma ExampleValues(stamp: string)
    ensures LookupPair(ExampleExposureProperties(stamp), "mlt_service") == Some("avfilter.exposure")
    ensures LookupPair(ExampleExposureProperties(stamp), "av.exposure") == Some(stamp + "=0")
    ensures LookupPair(ExampleExposureProperties(stamp), "av.black") == Some(stamp + "=0")
    ensures LookupPair(ExampleExposureProperties(stamp), "disable") == Some("1")
  {
    var p := ExampleExposureProperties(stamp);
    assert p[0..] == p;
    assert "mlt_service"[0] != "av.exposure"[0] && "kdenlive_id"[0] != "av.exposure"[0];
    LookupPairStep(p, 0, "av.exposure");
    LookupPairStep(p, 1, "av.exposure");
    LookupPairStep(p, 2, "av.exposure");
    LookupPairStep(p, 0, "av.black");
    LookupPairStep(p, 1, "av.black");
    LookupPairStep(p, 2, "av.black");
    LookupPairStep(p, 3, "av.black");
    LookupPairStep(p, 0, "disable");
    LookupPairStep(p, 1, "disable");
    LookupPairStep(p, 2, "disable");
    LookupPairStep(p, 3, "disable");
    LookupPairStep(p, 4, "disable");
    LookupPairStep(p, 5, "disable");
  }

  /**
   * The `exposure_from_xml` example read from the document root: values
   * behind a time stamp (`00:00:00.000=0`, or any other) read as 0, and
   * `disable` of 1 gives an inactive exposure filter.
   */
  lemma ExposureFromXml(fl: Floats, stamp: string)
    requires fl.parse("0") == Some(ZERO) && '=' !in stamp
    ensures Parse(ExposureService, ExampleRoot(stamp), fl) == Some(Exposure(false, ZERO, ZERO))
  {
    var root := ExampleRoot(stamp);
    ExampleService(stamp);
    ExampleZeros(fl, stamp);
    ExampleDisabled(stamp);
    var r := ParseExposure(root, fl);
    assert r.Some?;
    assert r.value == Exposure(false, ZERO, ZERO);
  }

  lemma ExampleService(stamp: string)
    ensures HasService(ExampleRoot(stamp), ExposureService)
  {
    ExampleValues(stamp);
    assert '=' !in "avfilter.exposure";
    ExampleLookup(stamp, "mlt_service", "avfilter.exposure", ParseString);
  }

  lemma ExampleZeros(fl: Floats, stamp: string)
    requires fl.parse("0") == Some(ZERO) && '=' !in stamp
    ensures FloatProperty(ExampleRoot(stamp), "av.exposure", fl) == Some(ZERO)
    ensures FloatProperty(ExampleRoot(stamp), "av.black", fl) == Some(ZERO)
  {
    ExampleValues(stamp);
    ExampleZero(fl, stamp, "av.exposure");
    ExampleZero(fl, stamp, "av.black");
  }

  lemma ExampleZero(fl: Floats, stamp: string, name: string)
    requires fl.parse("0") == Some(ZERO) && '=' !in stamp
    requires LookupPair(ExampleExposureProperties(stamp), name) == Some(stamp + "=0")
    ensures FloatProperty(ExampleRoot(stamp), name, fl) == Some(ZERO)
  {
    StripAtFirstEquals(stamp, "0");
    assert stamp + "=" + "0" == stamp + "=0";
    ExampleLookup(stamp, name, stamp + "=0", fl.parse);
  }

  lemma ExampleDisabled(stamp: string)
    ensures Disabled(ExampleRoot(stamp))
  {
    ExampleValues(stamp);
    ParseI32One();
    ExampleLookup(stamp, "disable", "1", ParseI32);
  }

  // ---------------------------------------------------------------------
  // Command-line options (`CliOption::to_option_args`)
  // ---------------------------------------------------------------------

  /** The texts of the active filters, in list order (the `filter_map` of `FilterOption`). */
  function RenderActive(filters: seq<Filter>, fl: Floats): (r: seq<string>)
    ensures |r| <= |filters|
  {
    if |filters| == 0 then []
    else (if filters[0].isActive then [Render(filters[0], fl)] else []) + RenderActive(filters[1..], fl)
  }

  /** The active filters joined by `,`. */
  function ActiveFilterString(filters: seq<Filter>, fl: Floats): string
  {
    Join(",", RenderActive(filters, fl))
  }

  predicate AllInactive(filters: seq<Filter>)
  {
    forall i :: 0 <= i < |filters| ==> !filters[i].isActive
  }

  /** `FilterOption::to_option_args`. */
  function FilterOptionArgs(filters: seq<Filter>, fl: Floats): (r: seq<string>)
    ensures r == [] <==> AllInactive(filters)
    ensures r != [] ==> |r| == 2 && r[0] == "-vf" && r[1] == ActiveFilterString(filters, fl)
  {
    if |filters| == 0 || AllInactive(filters) then []
    else ["-vf", ActiveFilterString(filters, fl)]
  }

  /** The `filter_map` keeps exactly the active filters, so it distributes over concatenation. */
  lemma {:induction false} RenderActiveConcat(a: seq<Filter>, b: seq<Filter>, fl: Floats)
    ensures RenderActive(a + b, fl) == RenderActive(a, fl) + RenderActive(b, fl)
  {
    if |a| > 0 {
      assert (a + b)[1..] == a[1..] + b;
      RenderActiveConcat(a[1..], b, fl);
    } else {
      assert a + b == b;
    }
  }

  /** Nothing is rendered exactly when no filter is active. */
  lemma {:induction false} RenderActiveEmpty(filters: seq<Filter>, fl: Floats)
    ensures RenderActive(filters, fl) == [] <==> AllInactive(filters)
  {
    if |filters| > 0 {
      RenderActiveEmpty(filters[1..], fl);
      assert AllInactive(filters) <==> !filters[0].isActive && AllInactive(filters[1..]) by {
        if AllInactive(filters[1..]) && !filters[0].isActive {
          forall i | 0 <= i < |filters| ensures !filters[i].isActive {
            if i > 0 {
              assert filters[i] == filters[1..][i - 1];
            }
          }
        }
      }
    }
  }

  /** An inactive filter changes nothing, wherever it sits. */
  lemma InactiveIgnored(a: seq<Filter>, f: Filter, b: seq<Filter>, fl: Floats)
    requires !f.isActive
    ensures ActiveFilterString(a + [f] + b, fl) == ActiveFilterString(a + b, fl)
  {
    RenderActiveConcat(a + [f], b, fl);
    RenderActiveConcat(a, [f], fl);
    RenderActiveConcat(a, b, fl);
    assert [f][1..] == [];
    assert RenderActive([f], fl) == [];
    assert RenderActive(a + [f], fl) == RenderActive(a, fl);
    assert RenderActive(a + [f] + b, fl) == RenderActive(a + b, fl);
  }

  /**
   * The order of the active filters survives: when no rendered text holds a
   * `,`, splitting the `-vf` value at `,` gives the texts back in list order.
   */
  lemma FilterStringSplits(filters: seq<Filter>, fl: Floats)
    requires !AllInactive(filters)
    requires forall i :: 0 <= i < |filters| && filters[i].isActive ==> ',' !in Render(filters[i], fl)
    ensures Split(FilterOptionArgs(filters, fl)[1], ',') == RenderActive(filters, fl)
  {
    RenderActiveEmpty(filters, fl);
    RenderActiveMembers(filters, fl);
    SplitJoin(RenderActive(filters, fl), ',');
  }

  /** `t` is the text of one of the active filters. */
  predicate RenderedByActive(filters: seq<Filter>, fl: Floats, t: string)
  {
    exists i :: 0 <= i < |filters| && filters[i].isActive && t == Render(filters[i], fl)
  }

  /** Every rendered text is the text of an active filter. */
  lemma {:induction false} RenderActiveMembers(filters: seq<Filter>, fl: Floats)
    ensures forall k :: 0 <= k < |RenderActive(filters, fl)| ==> RenderedByActive(filters, fl, RenderActive(filters, fl)[k])
  {
    if |filters| > 0 {
      RenderActiveMembers(filters[1..], fl);
      var r := RenderActive(filters, fl);
      var rest := RenderActive(filters[1..], fl);
      var head := if filters[0].isActive then [Render(filters[0], fl)] else [];
      assert r == head + rest;
      forall k | 0 <= k < |r|
        ensures RenderedByActive(filters, fl, r[k])
      {
        if k < |head| {
          assert filters[0].isActive && r[k] == Render(filters[0], fl);
        } else {
          assert r[k] == rest[k - |head|];
          assert RenderedByActive(filters[1..], fl, rest[k - |head|]);
          var i :| 0 <= i < |filters[1..]| && filters[1..][i].isActive && rest[k - |head|] == Render(filters[1..][i], fl);
          assert filters[i + 1] == filters[1..][i];
        }
      }
    }
  }

  /**
   * The `-vf` value is empty exactly when a single filter is active and
   * renders as nothing, which only a custom filter with an empty expression does.
   */
  lemma FilterStringEmpty(filters: seq<Filter>, fl: Floats)
    requires !AllInactive(filters)
    ensures FilterOptionArgs(filters, fl)[1] == "" <==>
      |RenderActive(filters, fl)| == 1 && RenderActive(filters, fl)[0] == ""
    ensures FilterOptionArgs(filters, fl)[1] == "" ==>
      exists i :: 0 <= i < |filters| && filters[i].isActive && filters[i] == Custom(true, "")
  {
    RenderActiveEmpty(filters, fl);
    RenderActiveMembers(filters, fl);
  }

  /** A lone active custom filter with no expression still yields `-vf` with an empty value. */
  lemma EmptyCustomFilterOption(fl: Floats)
    ensures FilterOptionArgs([Custom(true, "")], fl) == ["-vf", ""]
  {
    assert !AllInactive([Custom(true, "")]);
  }

  /** `SkipOption`: `-ss` and the seconds in decimal. */
  function SkipArgs(seconds: U64): (r: seq<string>)
    ensures |r| == 2 && r[0] == "-ss" && ParseU64(r[1]) == Some(seconds)
  {
    ParseShowUnsigned(seconds, U64_LIMIT);
    ["-ss", ShowNat(seconds)]
  }

  /** `NumberOfFramesOption`: `-frames:v` and the count in decimal. */
  function FramesArgs(frames: U64): (r: seq<string>)
    ensures |r| == 2 && r[0] == "-frames:v" && ParseU64(r[1]) == Some(frames)
  {
    ParseShowUnsigned(frames, U64_LIMIT);
    ["-frames:v", ShowNat(frames)]
  }

  /** `InputFile`: `-i` and the path. */
  function InputArgs(path: string): (r: seq<string>)
    ensures |r| == 2 && r[0] == "-i" && r[1] == path
  {
    ["-i", path]
  }

  /** `OutputFile`: the path alone, as ffmpeg's final positional argument. */
  function OutputArgs(path: string): (r: seq<string>)
    ensures |r| == 1 && r[0] == path
  {
    [path]
  }

  /** `Encoder`: nothing for an empty expression, else `-c:v` and the expression. */
  function EncoderArgs(expression: string): (r: seq<string>)
    ensures r == [] <==> expression == ""
    ensures r != [] ==> |r| == 2 && r[0] == "-c:v" && r[1] == expression
  {
    if expression == "" then [] else ["-c:v", expression]
  }

  // ---------------------------------------------------------------------
  // Reading options back from an argument list
  // ---------------------------------------------------------------------

  /**
   * ffmpeg's reading of an argument list made of options: each option is a
   * flag followed by its value, and the value of `flag` is the one after its
   * first occurrence as a flag.
   */
  function OptionValue(args: seq<string>, flag: string): Option<string>
    decreases |args|
  {
    if |args| < 2 then None
    else if args[0] == flag then Some(args[1])
    else OptionValue(args[2..], flag)
  }

  /** What is left after the flag and value pairs: the single positional argument, if any. */
  function Operand(args: seq<string>): Option<string>
    decreases |args|
  {
    if |args| == 1 then Some(args[0])
    else if |args| < 2 then None
    else Operand(args[2..])
  }

  /** Options written one after the other are read as the first one that names the flag. */
  lemma {:induction false} OptionValueConcat(a: seq<string>, b: seq<string>, flag: string)
    requires |a| % 2 == 0
    ensures OptionValue(a + b, flag) == if OptionValue(a, flag).Some? then OptionValue(a, flag) else OptionValue(b, flag)
    decreases |a|
  {
    if |a| == 0 {
      assert a + b == b;
    } else {
      assert (a + b)[2..] == a[2..] + b;
      OptionValueConcat(a[2..], b, flag);
    }
  }

  lemma {:induction false} OperandConcat(a: seq<string>, b: seq<string>)
    requires |a| % 2 == 0
    ensures Operand(a + b) == Operand(b)
    decreases |a|
  {
    if |a| == 0 {
      assert a + b == b;
    } else {
      assert (a + b)[2..] == a[2..] + b;
      OperandConcat(a[2..], b);
    }
  }

  /** The input path is read back from any whole list of options that does not name an input before it. */
  lemma ReadInputArg(before: seq<string>, path: string, after: seq<string>)
    requires |before| % 2 == 0 && OptionValue(before, "-i").None?
    ensures OptionValue(before + InputArgs(path) + after, "-i") == Some(path)
  {
    OptionValueConcat(before, InputArgs(path) + after, "-i");
    assert before + InputArgs(path) + after == before + (InputArgs(path) + after);
  }

  /** The seconds to skip are read back, as the same `u64`. */
  lemma ReadSkipArg(before: seq<string>, seconds: U64, after: seq<string>)
    requires |before| % 2 == 0 && OptionValue(before, "-ss").None?
    ensures var v := OptionValue(before + SkipArgs(seconds) + after, "-ss");
      v.Some? && ParseU64(v.value) == Some(seconds)
  {
    OptionValueConcat(before, SkipArgs(seconds) + after, "-ss");
    assert before + SkipArgs(seconds) + after == before + (SkipArgs(seconds) + after);
  }

  /** An encoder is named exactly when its expression is not empty, and then as that expression. */
  lemma ReadEncoderArg(before: seq<string>, expression: string, after: seq<string>)
    requires |before| % 2 == 0 && OptionValue(before, "-c:v").None? && OptionValue(after, "-c:v").None?
    ensures OptionValue(before + EncoderArgs(expression) + after, "-c:v") ==
      if expression == "" then None else Some(expression)
  {
    var args := EncoderArgs(expression);
    OptionValueConcat(before, args + after, "-c:v");
    OptionValueConcat(args, after, "-c:v");
    assert before + args + after == before + (args + after);
  }

  /** A filter graph is passed exactly when some filter is active, and then as the joined active texts. */
  lemma ReadFilterArg(before: seq<string>, filters: seq<Filter>, fl: Floats, after: seq<string>)
    requires |before| % 2 == 0 && OptionValue(before, "-vf").None? && OptionValue(after, "-vf").None?
    ensures OptionValue(before + FilterOptionArgs(filters, fl) + after, "-vf") ==
      if AllInactive(filters) then None else Some(ActiveFilterString(filters, fl))
  {
    var args := FilterOptionArgs(filters, fl);
    OptionValueConcat(before, args + after, "-vf");
    assert before + args + after == before + (args + after);
    if AllInactive(filters) {
      assert args + after == after;
    } else {
      var text := ActiveFilterString(filters, fl);
      assert args == ["-vf", text];
      assert OptionValue(args + after, "-vf") == Some(text);
    }
  }

  /** The output path, written after whole options, is ffmpeg's one positional argument. */
  lemma OutputIsOperand(options: seq<string>, path: string)
    requires |options| % 2 == 0
    ensures Operand(options + OutputArgs(path)) == Some(path)
  {
    OperandConcat(options, OutputArgs(path));
  }

  /** A list of filters as each starts out adds no `-vf` option: every default is inactive. */
  lemma DefaultsAddNoOption(kinds: seq<Kind>, fl: Floats)
    ensures FilterOptionArgs(seq(|kinds|, i requires 0 <= i < |kinds| => Default(kinds[i])), fl) == []
  {
    var filters := seq(|kinds|, i requires 0 <= i < |kinds| => Default(kinds[i]));
    assert AllInactive(filters);
  }
}
