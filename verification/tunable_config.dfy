/**
 * How a tunable field's config panel (`TunableFieldPanelConfig`) resolves,
 * edits and publishes its `Config`: a per-type config, keyed by the field's
 * class name, overrides the global one; "apply globally" and "apply to all of
 * same type" publish the panel's config; a slider-range edit changes the
 * panel's config in place.
 *
 * Kotlin shares `Config` objects by reference, and the sharing matters, so
 * configs live in a heap `map<Ref, Config>` and the store and the panel hold
 * references.  `Sharing` selects between resolution as written (by
 * reference) and resolution by copy.
 */
module TunableConfig {
  import opened Wrappers

  /** `PickerColorSpace`; the OpenCV conversion codes are not modelled. */
  datatype PickerColorSpace = YCrCb | HSV | RGB | Lab

  /** OpenCV's `Size`; `double`s are modelled as reals. */
  datatype Size = Size(width: real, height: real)

  /** `TunableFieldPanelConfig.Config`. */
  datatype Config = Config(sliderRange: Size, pickerColorSpace: PickerColorSpace)

  /** The identity of a `Config` object. */
  type Ref = nat

  /**
   * The simulator's config as the panel sees it: `globalTunableFieldsConfig`,
   * `specificTunableFieldConfig` (class name to config) and the objects they
   * refer to; `next` is the first unused reference.
   */
  datatype Store = Store(heap: map<Ref, Config>, global: Ref, specific: map<string, Ref>, next: Ref)

  /** Every reference the store holds is to an allocated object. */
  ghost predicate Valid(s: Store) {
    s.global in s.heap &&
    (forall k :: k in s.specific ==> s.specific[k] in s.heap) &&
    (forall r :: r in s.heap ==> r < s.next)
  }

  /** One panel: the class name of its field's type, its config, and `appliedSpecificConfig`. */
  datatype Panel = Panel(typeName: string, config: Ref, appliedSpecificConfig: bool)

  /** A panel of `s` holds an allocated config. */
  ghost predicate PanelOf(s: Store, p: Panel) {
    p.config in s.heap
  }

  /** How `applyFromConfig` takes the config it resolves: as written, or as a copy. */
  datatype Sharing = ByReference | ByCopy

  /** A new object holding `c`. */
  function Alloc(s: Store, c: Config): (r: (Store, Ref))
    requires Valid(s)
    ensures Valid(r.0) && r.1 !in s.heap && r.0.heap == s.heap[r.1 := c]
    ensures r.0.global == s.global && r.0.specific == s.specific
  {
    (s.(heap := s.heap[s.next := c], next := s.next + 1), s.next)
  }

  /** The config a field of type `typeName` resolves to: its specific entry if any, else the global one. */
  function Resolve(s: Store, typeName: string): (r: Ref)
    ensures typeName in s.specific ==> r == s.specific[typeName]
    ensures typeName !in s.specific ==> r == s.global
    ensures Valid(s) ==> r in s.heap
  {
    if typeName in s.specific then s.specific[typeName] else s.global
  }

  /**
   * `applyFromConfig`: the panel takes the specific config for its type if
   * there is one, and then marks `appliedSpecificConfig`, otherwise the global
   * config.  `ByReference` is the source; `ByCopy` gives the panel a fresh
   * object with the same contents.
   */
  function ApplyFromConfig(s: Store, p: Panel, sharing: Sharing): (r: (Store, Panel))
    requires Valid(s)
    ensures Valid(r.0) && PanelOf(r.0, r.1) && r.1.typeName == p.typeName
    ensures r.0.global == s.global && r.0.specific == s.specific
    ensures forall k :: k in s.heap ==> k in r.0.heap && r.0.heap[k] == s.heap[k]
    ensures r.0.heap[r.1.config] == s.heap[Resolve(s, p.typeName)]
    ensures r.1.appliedSpecificConfig <==> p.appliedSpecificConfig || p.typeName in s.specific
    ensures sharing == ByReference ==> r.0 == s && r.1.config == Resolve(s, p.typeName)
    ensures sharing == ByCopy ==> r.1.config !in s.heap
  {
    var applied := p.appliedSpecificConfig || p.typeName in s.specific;
    var source := Resolve(s, p.typeName);
    match sharing
    case ByReference => (s, p.(config := source, appliedSpecificConfig := applied))
    case ByCopy =>
      var (s1, copy) := Alloc(s, s.heap[source]);
      (s1, p.(config := copy, appliedSpecificConfig := applied))
  }

  /**
   * A new panel for a field of type `typeName`: `config` starts as a copy of
   * the global config and `appliedSpecificConfig` as false, and the
   * constructor ends with `applyFromConfig`.
   */
  function NewPanel(s: Store, typeName: string, sharing: Sharing): (r: (Store, Panel))
    requires Valid(s)
    ensures Valid(r.0) && PanelOf(r.0, r.1) && r.1.typeName == typeName
    ensures r.0.global == s.global && r.0.specific == s.specific
    ensures forall k :: k in s.heap ==> k in r.0.heap && r.0.heap[k] == s.heap[k]
    ensures r.0.heap[r.1.config] == s.heap[Resolve(s, typeName)]
    ensures r.1.appliedSpecificConfig <==> typeName in s.specific
    ensures sharing == ByReference ==> r.1.config == Resolve(s, typeName)
    ensures sharing == ByCopy ==> r.1.config !in s.heap
  {
    var (s1, initial) := Alloc(s, s.heap[s.global]);
    ApplyFromConfig(s1, Panel(typeName, initial, false), sharing)
  }

  /** `applyGlobally`: the global config becomes the panel's config object. */
  function ApplyGlobally(s: Store, p: Panel): (r: Store)
    requires Valid(s) && PanelOf(s, p)
    ensures Valid(r)
    ensures r.global == p.config
    ensures r.specific == s.specific && r.heap == s.heap && r.next == s.next
  {
    s.(global := p.config)
  }

  /** `applyOfSameType`: the entry for the panel's class name becomes the panel's config object. */
  function ApplyOfSameType(s: Store, p: Panel): (r: Store)
    requires Valid(s) && PanelOf(s, p)
    ensures Valid(r)
    ensures p.typeName in r.specific && r.specific[p.typeName] == p.config
    ensures forall k :: k != p.typeName ==> (k in r.specific <==> k in s.specific)
    ensures forall k :: k != p.typeName && k in s.specific ==> r.specific[k] == s.specific[k]
    ensures r.global == s.global && r.heap == s.heap && r.next == s.next
  {
    s.(specific := s.specific[p.typeName := p.config])
  }

  /**
   * The slider-range listener: when the fields are valid, the panel's config
   * object takes the entered size; `None` is a size that failed to parse
   * (the `NumberFormatException` is swallowed).
   */
  function OnSliderRangeChange(s: Store, p: Panel, valid: bool, entered: Option<Size>): (r: Store)
    requires Valid(s) && PanelOf(s, p)
    ensures Valid(r) && r.global == s.global && r.specific == s.specific && r.heap.Keys == s.heap.Keys
    ensures forall k :: k in s.heap && k != p.config ==> r.heap[k] == s.heap[k]
    ensures r.heap[p.config].pickerColorSpace == s.heap[p.config].pickerColorSpace
    ensures valid && entered.Some? ==> r.heap[p.config].sliderRange == entered.value
    ensures !(valid && entered.Some?) ==> r == s
  {
    if valid && entered.Some? then
      s.(heap := s.heap[p.config := s.heap[p.config].(sliderRange := entered.value)])
    else s
  }

  /**
   * `panelHide`: the range handed to the field panel's sliders, if any.  It
   * is handed over only for valid fields whose upper bound is strictly above
   * the lower one.
   */
  function PanelHide(s: Store, p: Panel, valid: bool): (r: Option<(real, real)>)
    requires PanelOf(s, p)
    ensures var range := s.heap[p.config].sliderRange;
            (r.Some? <==> valid && range.height > range.width) &&
            (r.Some? ==> r.value.0 == range.width && r.value.1 == range.height && r.value.0 < r.value.1)
  {
    var range := s.heap[p.config].sliderRange;
    if valid && range.height > range.width then Some((range.width, range.height)) else None
  }

  // ---------------------------------------------------------------------------
  // Properties across calls
  // ---------------------------------------------------------------------------

  /**
   * Round trip: the range a valid slider edit stores is the range the
   * sliders receive when the panel closes, provided its upper bound is above
   * the lower one; otherwise they receive nothing.
   */
  lemma EditThenHide(s: Store, p: Panel, entered: Size)
    requires Valid(s) && PanelOf(s, p)
    ensures PanelOf(OnSliderRangeChange(s, p, true, Some(entered)), p)
    ensures PanelHide(OnSliderRangeChange(s, p, true, Some(entered)), p, true) ==
            if entered.height > entered.width then Some((entered.width, entered.height)) else None
  {
  }

  /**
   * Round trip: after "apply to all of same type", any panel for the same
   * type resolves to that config (the same object, as written), and is
   * marked as using a specific config.
   */
  lemma SameTypeRoundTrip(s: Store, p: Panel, q: Panel, sharing: Sharing)
    requires Valid(s) && PanelOf(s, p) && q.typeName == p.typeName
    ensures var s1 := ApplyOfSameType(s, p);
            var (s2, q1) := ApplyFromConfig(s1, q, sharing);
            s2.heap[q1.config] == s.heap[p.config] && q1.appliedSpecificConfig &&
            (sharing == ByReference ==> q1.config == p.config)
  {
  }

  /** After "apply globally", a panel for any type without a specific entry resolves to that config. */
  lemma GlobalRoundTrip(s: Store, p: Panel, q: Panel, sharing: Sharing)
    requires Valid(s) && PanelOf(s, p) && q.typeName !in s.specific
    ensures var s1 := ApplyGlobally(s, p);
            var (s2, q1) := ApplyFromConfig(s1, q, sharing);
            s2.heap[q1.config] == s.heap[p.config] && q1.appliedSpecificConfig == q.appliedSpecificConfig
  {
  }

  /** A specific entry wins over the global config, whatever the global config is. */
  lemma SpecificOverridesGlobal(s: Store, p: Panel, g: Ref, sharing: Sharing)
    requires Valid(s) && g in s.heap && p.typeName in s.specific
    ensures var (s1, p1) := ApplyFromConfig(s.(global := g), p, sharing);
            s1.heap[p1.config] == s.heap[s.specific[p.typeName]]
  {
  }

  /** `appliedSpecificConfig` is never reset, whatever is applied afterwards. */
  lemma AppliedFlagSticks(s: Store, p: Panel, sharing: Sharing)
    requires Valid(s) && p.appliedSpecificConfig
    ensures ApplyFromConfig(s, p, sharing).1.appliedSpecificConfig
  {
  }

  /**
   * As written, a panel for a type without a specific entry holds the global
   * config object itself, so a valid slider edit changes the global config
   * for every field, without "apply globally".
   */
  lemma EditLeaksIntoGlobal(s: Store, typeName: string, size: Size)
    requires Valid(s) && typeName !in s.specific
    ensures var (s1, p) := NewPanel(s, typeName, ByReference);
            var s2 := OnSliderRangeChange(s1, p, true, Some(size));
            s2.heap[s2.global].sliderRange == size
  {
  }

  /** The same leak, on concrete values: the default range (0, 255) becomes (10, 20) globally. */
  lemma EditLeaksIntoGlobalExample()
    ensures var s := Store(map[0 := Config(Size(0.0, 255.0), YCrCb)], 0, map[], 1);
            var (s1, p) := NewPanel(s, "IntField", ByReference);
            var s2 := OnSliderRangeChange(s1, p, true, Some(Size(10.0, 20.0)));
            s.heap[s.global].sliderRange == Size(0.0, 255.0) &&
            s2.heap[s2.global].sliderRange == Size(10.0, 20.0)
  {
    var s := Store(map[0 := Config(Size(0.0, 255.0), YCrCb)], 0, map[], 1);
    EditLeaksIntoGlobal(s, "IntField", Size(10.0, 20.0));
  }

  /**
   * With resolution by copy, slider edits stay in the panel: every config the
   * store already held, global and specific alike, keeps its contents until
   * the panel's config is applied.
   */
  lemma EditStaysLocal(s: Store, typeName: string, valid: bool, entered: Option<Size>)
    requires Valid(s)
    ensures var (s1, p) := NewPanel(s, typeName, ByCopy);
            var s2 := OnSliderRangeChange(s1, p, valid, entered);
            s2.global == s.global && s2.specific == s.specific &&
            (forall k :: k in s.heap ==> k in s2.heap && s2.heap[k] == s.heap[k])
  {
  }

  // ---------------------------------------------------------------------------
  // Sessions: any sequence of user actions on one panel
  // ---------------------------------------------------------------------------

  /** What the user can do with an open panel. */
  datatype Action =
    | Reapply                                      // `applyFromConfig`, public and last run by the constructor
    | Globally                                     // the "Globally" button
    | OfSameType                                   // the "Of same type" button
    | EditRange(valid: bool, entered: Option<Size>) // an edit of the slider-range fields

  /** One action on the panel. */
  function Perform(s: Store, p: Panel, a: Action, sharing: Sharing): (r: (Store, Panel))
    requires Valid(s) && PanelOf(s, p)
    ensures Valid(r.0) && PanelOf(r.0, r.1) && r.1.typeName == p.typeName
  {
    match a
    case Reapply => ApplyFromConfig(s, p, sharing)
    case Globally => (ApplyGlobally(s, p), p)
    case OfSameType => (ApplyOfSameType(s, p), p)
    case EditRange(valid, entered) => (OnSliderRangeChange(s, p, valid, entered), p)
  }

  /** The actions in order. */
  function Session(s: Store, p: Panel, actions: seq<Action>, sharing: Sharing): (r: (Store, Panel))
    requires Valid(s) && PanelOf(s, p)
    ensures Valid(r.0) && PanelOf(r.0, r.1) && r.1.typeName == p.typeName
    decreases |actions|
  {
    if |actions| == 0 then (s, p)
    else
      var (s1, p1) := Perform(s, p, actions[0], sharing);
      Session(s1, p1, actions[1..], sharing)
  }

  /** No publishing button among the actions. */
  predicate Unpublished(actions: seq<Action>) {
    forall i :: 0 <= i < |actions| ==> !actions[i].Globally? && !actions[i].OfSameType?
  }

  /** Whatever the user does, a set `appliedSpecificConfig` is never cleared. */
  lemma {:induction false} SessionKeepsFlag(s: Store, p: Panel, actions: seq<Action>, sharing: Sharing)
    requires Valid(s) && PanelOf(s, p) && p.appliedSpecificConfig
    ensures Session(s, p, actions, sharing).1.appliedSpecificConfig
    decreases |actions|
  {
    if |actions| > 0 {
      var (s1, p1) := Perform(s, p, actions[0], sharing);
      SessionKeepsFlag(s1, p1, actions[1..], sharing);
    }
  }

  /**
   * With resolution by copy, a session without "Globally" or "Of same type"
   * leaves every config of the original store as it was: the global and
   * per-type references and the contents of every object they could reach.
   */
  lemma {:induction false} CopySessionKeepsStore(s0: Store, s: Store, p: Panel, actions: seq<Action>)
    requires Valid(s) && PanelOf(s, p) && Unpublished(actions)
    requires p.config !in s0.heap && s.global == s0.global && s.specific == s0.specific
    requires forall k :: k in s0.heap ==> k in s.heap && s.heap[k] == s0.heap[k]
    ensures var (s1, p1) := Session(s, p, actions, ByCopy);
            p1.config !in s0.heap && s1.global == s0.global && s1.specific == s0.specific &&
            (forall k :: k in s0.heap ==> k in s1.heap && s1.heap[k] == s0.heap[k])
    decreases |actions|
  {
    if |actions| > 0 {
      var (s1, p1) := Perform(s, p, actions[0], ByCopy);
      assert !actions[0].Globally? && !actions[0].OfSameType?;
      assert p1.config !in s0.heap;
      assert forall k :: k in s0.heap ==> k in s1.heap && s1.heap[k] == s0.heap[k];
      assert Unpublished(actions[1..]) by {
        forall i | 0 <= i < |actions[1..]|
          ensures !actions[1..][i].Globally? && !actions[1..][i].OfSameType?
        {
          assert actions[1..][i] == actions[i + 1];
        }
      }
      CopySessionKeepsStore(s0, s1, p1, actions[1..]);
    }
  }

  /** A new panel resolved by copy, and anything the user does short of publishing, changes no stored config. */
  lemma NewCopyPanelKeepsStore(s: Store, typeName: string, actions: seq<Action>)
    requires Valid(s) && Unpublished(actions)
    ensures var (s1, p) := NewPanel(s, typeName, ByCopy);
            var (s2, _) := Session(s1, p, actions, ByCopy);
            s2.global == s.global && s2.specific == s.specific &&
            (forall k :: k in s.heap ==> k in s2.heap && s2.heap[k] == s.heap[k])
  {
    var (s1, p) := NewPanel(s, typeName, ByCopy);
    CopySessionKeepsStore(s, s1, p, actions);
  }
}
