/** The physics record of a style token: `apply_physical_property` and
    `evaluate_native_style`. The float parser (`strtof` with its error
    checks) is a parameter: it gives the value a non-empty text stands for,
    or nothing when the text does not parse. */
module Physics {
  import opened Wrappers
  import opened Ascii
  import opened Catalog
  import opened Resolver

  datatype PhysicalField = Mass | Friction | Restitution | Drag | GravityScale | Spacing

  /** The field each physical property name sets. */
  function FieldNamed(name: string): Option<PhysicalField> {
    if name == "mass" then Some(Mass)
    else if name == "friction" then Some(Friction)
    else if name == "restitution" then Some(Restitution)
    else if name == "drag" then Some(Drag)
    else if name in {"gravity-scale", "gravity_scale"} then Some(GravityScale)
    else if name in {"spacing", "gap"} then Some(Spacing)
    else None
  }

  function FieldOf(s: NativeStyle, f: PhysicalField): real {
    match f
    case Mass => s.mass
    case Friction => s.friction
    case Restitution => s.restitution
    case Drag => s.drag
    case GravityScale => s.gravityScale
    case Spacing => s.spacing
  }

  /** A property name with one leading `--` removed, as in CSS custom
      properties. */
  function StripDashes(key: string): (name: string)
    ensures StartsWith(key, "--") ==> key == "--" + name
    ensures !StartsWith(key, "--") ==> name == key
  {
    if StartsWith(key, "--") then key[2..] else key
  }

  /** `parse_physical_value`: an empty text never parses. */
  function ParsePhysicalValue(text: string, parse: string -> Option<real>): (r: Option<real>)
    ensures text == [] ==> r.None?
    ensures text != [] ==> r == parse(text)
  {
    if text == [] then None else parse(text)
  }

  /** The field a property sets and the value it sets it to, if any. */
  function Setting(key: string, rawValue: string, parse: string -> Option<real>): Option<(PhysicalField, real)> {
    if key == [] then None
    else
      match (FieldNamed(StripDashes(key)), ParsePhysicalValue(rawValue, parse))
      case (Some(f), Some(v)) => Some((f, v))
      case _ => None
  }

  /** `apply_physical_property`. */
  function ApplyPhysicalProperty(style: NativeStyle, key: string, rawValue: string,
                                 parse: string -> Option<real>): (r: NativeStyle)
    ensures Setting(key, rawValue, parse).None? ==> r == style
    ensures Setting(key, rawValue, parse).Some? ==>
      && r.hasPhysical
      && FieldOf(r, Setting(key, rawValue, parse).value.0) == Setting(key, rawValue, parse).value.1
      && forall g :: g != Setting(key, rawValue, parse).value.0 ==> FieldOf(r, g) == FieldOf(style, g)
  {
    if key == [] then style
    else
      var name := StripDashes(key);
      match ParsePhysicalValue(rawValue, parse)
      case None => style
      case Some(value) =>
        if name == "mass" then style.(mass := value, hasPhysical := true)
        else if name == "friction" then style.(friction := value, hasPhysical := true)
        else if name == "restitution" then style.(restitution := value, hasPhysical := true)
        else if name == "drag" then style.(drag := value, hasPhysical := true)
        else if name == "gravity-scale" || name == "gravity_scale" then style.(gravityScale := value, hasPhysical := true)
        else if name == "spacing" || name == "gap" then style.(spacing := value, hasPhysical := true)
        else style
  }

  /** The resolved value of a property: its text through
      `resolve_plain_text` at depth 0 with nothing seen. */
  function Resolved(c: StyleCatalog, p: StyleProperty, args: seq<string>): string {
    ResolvePlain(c, p.value, args, {}, 0)
  }

  /** What one property of the loop sets, if anything: unnamed properties
      set nothing. */
  function PropertySetting(c: StyleCatalog, p: StyleProperty, args: seq<string>,
                           parse: string -> Option<real>): Option<(PhysicalField, real)> {
    if p.name == [] then None else Setting(p.name, Resolved(c, p, args), parse)
  }

  /** One round of the loop of `evaluate_native_style`. */
  function EvaluateStep(c: StyleCatalog, style: NativeStyle, p: StyleProperty, args: seq<string>,
                        parse: string -> Option<real>): NativeStyle {
    if p.name == [] then style
    else ApplyPhysicalProperty(style, p.name, Resolved(c, p, args), parse)
  }

  /** The loop of `evaluate_native_style`, from a given record. */
  function EvaluateFrom(c: StyleCatalog, style: NativeStyle, props: seq<StyleProperty>, args: seq<string>,
                        parse: string -> Option<real>): NativeStyle
    decreases |props|
  {
    if props == [] then style
    else EvaluateFrom(c, EvaluateStep(c, style, props[0], args, parse), props[1..], args, parse)
  }

  /** `evaluate_native_style`: the properties applied in order to a fresh
      record. */
  function EvaluateNativeStyle(c: StyleCatalog, props: seq<StyleProperty>, args: seq<string>,
                               parse: string -> Option<real>): NativeStyle {
    EvaluateFrom(c, DefaultNativeStyle, props, args, parse)
  }

  /** The fresh record: no physics, gravity scale 1, everything else 0. */
  lemma DefaultRecord()
    ensures !DefaultNativeStyle.hasPhysical
    ensures forall f :: FieldOf(DefaultNativeStyle, f) == (if f == GravityScale then 1.0 else 0.0)
  {
  }

  /** One loop round sets what the property's setting says and nothing else. */
  lemma EvaluateStepSets(c: StyleCatalog, style: NativeStyle, p: StyleProperty, args: seq<string>,
                         parse: string -> Option<real>)
    ensures PropertySetting(c, p, args, parse).None? ==> EvaluateStep(c, style, p, args, parse) == style
    ensures PropertySetting(c, p, args, parse).Some? ==>
      var (f, v) := PropertySetting(c, p, args, parse).value;
      && EvaluateStep(c, style, p, args, parse).hasPhysical
      && FieldOf(EvaluateStep(c, style, p, args, parse), f) == v
      && forall g :: g != f ==> FieldOf(EvaluateStep(c, style, p, args, parse), g) == FieldOf(style, g)
  {
  }

  /** The loop over `props + [p]` is the loop over `props` and then `p`. */
  lemma {:induction false} EvaluateAppend(c: StyleCatalog, style: NativeStyle, props: seq<StyleProperty>,
                                          p: StyleProperty, args: seq<string>, parse: string -> Option<real>)
    ensures EvaluateFrom(c, style, props + [p], args, parse)
      == EvaluateStep(c, EvaluateFrom(c, style, props, args, parse), p, args, parse)
    decreases |props|
  {
    if props == [] {
      assert props + [p] == [p];
    } else {
      assert (props + [p])[1..] == props[1..] + [p];
      EvaluateAppend(c, EvaluateStep(c, style, props[0], args, parse), props[1..], p, args, parse);
    }
  }

  /** A later property overrides an earlier one: the last property that
      sets a field decides its value. */
  lemma LaterOverrides(c: StyleCatalog, style: NativeStyle, props: seq<StyleProperty>, p: StyleProperty,
                       args: seq<string>, parse: string -> Option<real>)
    requires PropertySetting(c, p, args, parse).Some?
    ensures FieldOf(EvaluateFrom(c, style, props + [p], args, parse), PropertySetting(c, p, args, parse).value.0)
      == PropertySetting(c, p, args, parse).value.1
  {
    EvaluateAppend(c, style, props, p, args, parse);
    EvaluateStepSets(c, EvaluateFrom(c, style, props, args, parse), p, args, parse);
  }

  /** The record has physics exactly when it started with physics or some
      property sets a field. */
  lemma {:induction false} HasPhysicalIff(c: StyleCatalog, style: NativeStyle, props: seq<StyleProperty>,
                                          args: seq<string>, parse: string -> Option<real>)
    ensures EvaluateFrom(c, style, props, args, parse).hasPhysical
      <==> style.hasPhysical || exists i :: 0 <= i < |props| && PropertySetting(c, props[i], args, parse).Some?
    decreases |props|
  {
    if props != [] {
      var next := EvaluateStep(c, style, props[0], args, parse);
      EvaluateStepSets(c, style, props[0], args, parse);
      HasPhysicalIff(c, next, props[1..], args, parse);
      if exists i :: 0 <= i < |props| && PropertySetting(c, props[i], args, parse).Some? {
        var i :| 0 <= i < |props| && PropertySetting(c, props[i], args, parse).Some?;
        if i > 0 {
          assert props[1..][i - 1] == props[i];
        }
      }
      if exists j :: 0 <= j < |props[1..]| && PropertySetting(c, props[1..][j], args, parse).Some? {
        var j :| 0 <= j < |props[1..]| && PropertySetting(c, props[1..][j], args, parse).Some?;
        assert props[j + 1] == props[1..][j];
      }
    }
  }

  /** A field no property sets keeps its value. */
  lemma {:induction false} UnsetFieldKept(c: StyleCatalog, style: NativeStyle, props: seq<StyleProperty>,
                                          f: PhysicalField, args: seq<string>, parse: string -> Option<real>)
    requires forall i :: 0 <= i < |props| && PropertySetting(c, props[i], args, parse).Some? ==>
      PropertySetting(c, props[i], args, parse).value.0 != f
    ensures FieldOf(EvaluateFrom(c, style, props, args, parse), f) == FieldOf(style, f)
    decreases |props|
  {
    if props != [] {
      EvaluateStepSets(c, style, props[0], args, parse);
      assert forall i :: 0 <= i < |props[1..]| ==> props[1..][i] == props[i + 1];
      UnsetFieldKept(c, EvaluateStep(c, style, props[0], args, parse), props[1..], f, args, parse);
    }
  }

  /** The named properties, in order. */
  function Named(props: seq<StyleProperty>): (r: seq<StyleProperty>)
    ensures forall i :: 0 <= i < |r| ==> r[i].name != []
    ensures |r| <= |props|
  {
    if props == [] then []
    else if props[0].name == [] then Named(props[1..])
    else [props[0]] + Named(props[1..])
  }

  /** Unnamed (`@`) properties are skipped: only the named ones count. */
  lemma {:induction false} UnnamedSkipped(c: StyleCatalog, style: NativeStyle, props: seq<StyleProperty>,
                                          args: seq<string>, parse: string -> Option<real>)
    ensures EvaluateFrom(c, style, props, args, parse) == EvaluateFrom(c, style, Named(props), args, parse)
    decreases |props|
  {
    if props != [] {
      UnnamedSkipped(c, EvaluateStep(c, style, props[0], args, parse), props[1..], args, parse);
      if props[0].name != [] {
        assert ([props[0]] + Named(props[1..]))[1..] == Named(props[1..]);
      }
    }
  }
}
