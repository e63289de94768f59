/** The manifest walk of src/android/apk.rs: a fold over the decoded element
    stream that tracks the current `<activity>` and the current intent filter,
    and the attribute helpers it uses. */
module Apk {
  import opened Wrappers

  /** The kinds of attribute value the binary-XML decoder yields (`TypedValue`). */
  datatype TypedValue =
    | Null
    | Reference(id: u32)
    | AttributeReference(id: u32)
    | DynamicReference(id: u32)
    | StringValue(text: string)
    | IntDecimal(n: int)
    | IntHex(n: int)
    | Boolean(b: bool)

  /** The decoder library calls this code makes, taken as given:
      `TypedValue::is_reference_type`, `TypedValue::to_string`,
      `is_package_reference` and `Resources::get_human_reference`. */
  datatype ApkLibrary = ApkLibrary(
    isReferenceType: TypedValue -> bool,
    display: TypedValue -> string,
    isPackageReference: u32 -> bool,
    humanReference: u32 -> Option<string>)

  datatype XmlAttribute = XmlAttribute(name: string, value: TypedValue)

  /** An element start with its attributes (none when the element has no attribute list). */
  datatype Element = Element(name: string, attributes: seq<XmlAttribute>)

  datatype XmlEvent = ElementStart(element: Element) | ElementEnd(name: string) | OtherEvent

  datatype IntentFilterData = IntentFilterData(
    scheme: Option<string>,
    host: Option<string>,
    port: Option<string>,
    path: Option<string>,
    pathPattern: Option<string>,
    pathPrefix: Option<string>)

  /** `IntentFilterData::new` */
  function NewIntentFilterData(): (d: IntentFilterData)
    ensures d.scheme.None? && d.host.None? && d.port.None?
    ensures d.path.None? && d.pathPattern.None? && d.pathPrefix.None?
  {
    IntentFilterData(None, None, None, None, None, None)
  }

  datatype IntentFilter = IntentFilter(
    activityName: string,
    action: seq<string>,
    category: seq<string>,
    autoVerify: bool,
    data: Option<seq<IntentFilterData>>)

  /** `IntentFilter::new` */
  function NewIntentFilter(activityName: string, autoVerify: bool): IntentFilter
  {
    IntentFilter(activityName, [], [], autoVerify, None)
  }

  /** A package reference must resolve: `get_human_reference(r).unwrap()`. */
  predicate ValueRenderable(lib: ApkLibrary, v: TypedValue)
  {
    lib.isReferenceType(v) && v.Reference? && lib.isPackageReference(v.id) ==> lib.humanReference(v.id).Some?
  }

  /** How `get_string_attribute` turns a value into text. */
  function RenderValue(lib: ApkLibrary, v: TypedValue): string
    requires ValueRenderable(lib, v)
  {
    if lib.isReferenceType(v) then
      match v
      case Reference(r) => if lib.isPackageReference(r) then lib.humanReference(r).value else lib.display(v)
      case _ => ""
    else
      lib.display(v)
  }

  /** The four rendering cases, stated as a relation between a value and its text. */
  ghost predicate RenderedAs(lib: ApkLibrary, v: TypedValue, s: string)
  {
    && (lib.isReferenceType(v) && v.Reference? && lib.isPackageReference(v.id) ==> lib.humanReference(v.id) == Some(s))
    && (lib.isReferenceType(v) && v.Reference? && !lib.isPackageReference(v.id) ==> s == lib.display(v))
    && (lib.isReferenceType(v) && !v.Reference? ==> s == "")
    && (!lib.isReferenceType(v) ==> s == lib.display(v))
  }

  /** `k` is the first attribute called `name`. */
  predicate FirstNamed(attrs: seq<XmlAttribute>, name: string, k: int)
  {
    0 <= k < |attrs| && attrs[k].name == name && forall j :: 0 <= j < k ==> attrs[j].name != name
  }

  /** The first attribute called `name`, if any, renders without a panic. */
  predicate AttributeRenderable(lib: ApkLibrary, attrs: seq<XmlAttribute>, name: string)
    decreases |attrs|
  {
    |attrs| == 0 ||
    if attrs[0].name == name then ValueRenderable(lib, attrs[0].value)
    else AttributeRenderable(lib, attrs[1..], name)
  }

  function StringAttributeOf(lib: ApkLibrary, attrs: seq<XmlAttribute>, name: string): (r: Option<string>)
    requires AttributeRenderable(lib, attrs, name)
    ensures r.None? <==> forall k :: 0 <= k < |attrs| ==> attrs[k].name != name
    ensures r.Some? ==> exists k :: FirstNamed(attrs, name, k) && RenderedAs(lib, attrs[k].value, r.value)
    decreases |attrs|
  {
    if |attrs| == 0 then None
    else if attrs[0].name == name then
      assert FirstNamed(attrs, name, 0);
      Some(RenderValue(lib, attrs[0].value))
    else
      var r := StringAttributeOf(lib, attrs[1..], name);
      assert r.Some? ==> exists k :: FirstNamed(attrs, name, k) && RenderedAs(lib, attrs[k].value, r.value) by {
        if r.Some? {
          var k :| FirstNamed(attrs[1..], name, k) && RenderedAs(lib, attrs[1..][k].value, r.value);
          assert FirstNamed(attrs, name, k + 1);
        }
      }
      r
  }

  /** `get_string_attribute`: the text of the first attribute called `name`, or
      `None` when the element has no such attribute. */
  function GetStringAttribute(lib: ApkLibrary, e: Element, name: string): (r: Option<string>)
    requires AttributeRenderable(lib, e.attributes, name)
    ensures r.None? <==> forall k :: 0 <= k < |e.attributes| ==> e.attributes[k].name != name
    ensures r.Some? ==>
      exists k :: FirstNamed(e.attributes, name, k) && RenderedAs(lib, e.attributes[k].value, r.value)
  {
    StringAttributeOf(lib, e.attributes, name)
  }

  /** An `autoVerify` attribute that holds a boolean. */
  predicate IsAutoVerifyFlag(a: XmlAttribute)
  {
    a.name == "autoVerify" && a.value.Boolean?
  }

  predicate FirstAutoVerifyFlag(attrs: seq<XmlAttribute>, k: int)
  {
    0 <= k < |attrs| && IsAutoVerifyFlag(attrs[k]) && forall j :: 0 <= j < k ==> !IsAutoVerifyFlag(attrs[j])
  }

  function AutoVerifyOf(attrs: seq<XmlAttribute>): (r: bool)
    ensures r <==> exists k :: FirstAutoVerifyFlag(attrs, k) && attrs[k].value.b
    decreases |attrs|
  {
    if |attrs| == 0 then false
    else if attrs[0].name == "autoVerify" && attrs[0].value.Boolean? then
      assert FirstAutoVerifyFlag(attrs, 0);
      attrs[0].value.b
    else
      var r := AutoVerifyOf(attrs[1..]);
      assert r <==> exists k :: FirstAutoVerifyFlag(attrs, k) && attrs[k].value.b by {
        if r {
          var k :| FirstAutoVerifyFlag(attrs[1..], k) && attrs[1..][k].value.b;
          assert FirstAutoVerifyFlag(attrs, k + 1);
        }
        if exists k :: FirstAutoVerifyFlag(attrs, k) && attrs[k].value.b {
          var k :| FirstAutoVerifyFlag(attrs, k) && attrs[k].value.b;
          assert FirstAutoVerifyFlag(attrs[1..], k - 1);
        }
      }
      r
  }

  /** `get_intent_filter_auto_verify`: the first boolean `autoVerify` attribute
      decides; attributes of that name holding another kind of value are skipped,
      and without any the answer is false. */
  function GetIntentFilterAutoVerify(e: Element): (r: bool)
    ensures r <==> exists k :: FirstAutoVerifyFlag(e.attributes, k) && e.attributes[k].value.b
  {
    AutoVerifyOf(e.attributes)
  }

  /** The scratch state of the walk: the last `<activity>` seen and the last filter opened. */
  datatype ParseState = ParseState(activity: Option<Element>, intentFilter: Option<IntentFilter>)

  const InitialState: ParseState := ParseState(None, None)

  predicate IsStart(ev: XmlEvent, name: string)
  {
    ev.ElementStart? && ev.element.name == name
  }

  /** What a step needs to run without a panic: an `<intent-filter>` needs an
      enclosing `<activity>` (`activity.as_ref().unwrap()`), and each name it reads
      must render. */
  predicate CanStep(lib: ApkLibrary, st: ParseState, ev: XmlEvent)
  {
    && (IsStart(ev, "intent-filter") ==>
          st.activity.Some? && AttributeRenderable(lib, st.activity.value.attributes, "name"))
    && ((IsStart(ev, "action") || IsStart(ev, "category")) && st.intentFilter.Some? ==>
          AttributeRenderable(lib, ev.element.attributes, "name"))
  }

  /** One event of the walk. */
  function Step(lib: ApkLibrary, st: ParseState, ev: XmlEvent): (r: ParseState)
    requires CanStep(lib, st, ev)
    ensures IsStart(ev, "activity") ==> r == st.(activity := Some(ev.element))
    ensures r.activity != st.activity ==> IsStart(ev, "activity")
    ensures r.intentFilter != st.intentFilter ==>
      IsStart(ev, "intent-filter") || ((IsStart(ev, "action") || IsStart(ev, "category")) && st.intentFilter.Some?)
    ensures !ev.ElementStart? ==> r == st
  {
    match ev
    case ElementStart(e) =>
      if e.name == "activity" then st.(activity := Some(e))
      else if e.name == "intent-filter" then
        match GetStringAttribute(lib, st.activity.value, "name")
        case Some(activityName) =>
          st.(intentFilter := Some(NewIntentFilter(activityName, GetIntentFilterAutoVerify(e))))
        case None => st
      else if e.name == "action" && st.intentFilter.Some? then
        match GetStringAttribute(lib, e, "name")
        case Some(action) =>
          var f := st.intentFilter.value;
          st.(intentFilter := Some(f.(action := f.action + [action])))
        case None => st
      else if e.name == "data" && st.intentFilter.Some? then st
      else if e.name == "category" && st.intentFilter.Some? then
        match GetStringAttribute(lib, e, "name")
        case Some(category) =>
          var f := st.intentFilter.value;
          st.(intentFilter := Some(f.(category := f.category + [category])))
        case None => st
      else st
    case ElementEnd(_) => st
    case OtherEvent => st
  }

  /** Every step of the walk can run. */
  predicate CanFold(lib: ApkLibrary, st: ParseState, events: seq<XmlEvent>)
    decreases |events|
  {
    |events| == 0 || (CanStep(lib, st, events[0]) && CanFold(lib, Step(lib, st, events[0]), events[1..]))
  }

  /** The walk over the element stream. */
  function Fold(lib: ApkLibrary, st: ParseState, events: seq<XmlEvent>): ParseState
    requires CanFold(lib, st, events)
    decreases |events|
  {
    if |events| == 0 then st else Fold(lib, Step(lib, st, events[0]), events[1..])
  }

  /** Walking two stretches of the stream is walking their concatenation. */
  lemma {:induction false} FoldConcat(lib: ApkLibrary, st: ParseState, a: seq<XmlEvent>, b: seq<XmlEvent>)
    ensures CanFold(lib, st, a + b) <==> CanFold(lib, st, a) && CanFold(lib, Fold(lib, st, a), b)
    ensures CanFold(lib, st, a + b) ==> Fold(lib, st, a + b) == Fold(lib, Fold(lib, st, a), b)
    decreases |a|
  {
    if |a| == 0 {
      assert a + b == b;
    } else {
      assert (a + b)[0] == a[0];
      assert (a + b)[1..] == a[1..] + b;
      if CanStep(lib, st, a[0]) {
        FoldConcat(lib, Step(lib, st, a[0]), a[1..], b);
      }
    }
  }

  /** The element of the last `<activity>` start of a stretch, or `before` when it has none. */
  function LastActivity(before: Option<Element>, events: seq<XmlEvent>): Option<Element>
    decreases |events|
  {
    if |events| == 0 then before
    else if IsStart(events[|events| - 1], "activity") then Some(events[|events| - 1].element)
    else LastActivity(before, events[..|events| - 1])
  }

  /** The walk's activity is always the last `<activity>` started, so the name a new
      filter carries comes from the innermost preceding activity. */
  lemma {:induction false} FoldTracksLastActivity(lib: ApkLibrary, st: ParseState, events: seq<XmlEvent>)
    requires CanFold(lib, st, events)
    ensures Fold(lib, st, events).activity == LastActivity(st.activity, events)
    decreases |events|
  {
    if |events| > 0 {
      var n := |events| - 1;
      var init, last := events[..n], events[n];
      assert events == init + [last];
      FoldConcat(lib, st, init, [last]);
      FoldTracksLastActivity(lib, st, init);
      var mid := Fold(lib, st, init);
      assert Fold(lib, mid, [last]) == Fold(lib, Step(lib, mid, last), []);
    }
  }

  /** An `<intent-filter>` opens a fresh filter, replacing the current one, when the
      current activity has a name: it carries that name and the filter's auto-verify
      flag, no action, no category and no data. Otherwise nothing changes. */
  lemma OpeningAFilter(lib: ApkLibrary, st: ParseState, e: Element)
    requires e.name == "intent-filter" && CanStep(lib, st, ElementStart(e))
    ensures var name := GetStringAttribute(lib, st.activity.value, "name");
      && (name.None? ==> Step(lib, st, ElementStart(e)) == st)
      && (name.Some? ==> Step(lib, st, ElementStart(e)).activity == st.activity)
      && (name.Some? ==>
            Step(lib, st, ElementStart(e)).intentFilter ==
            Some(IntentFilter(name.value, [], [], GetIntentFilterAutoVerify(e), None)))
  {
  }

  predicate OpensFilter(ev: XmlEvent)
  {
    IsStart(ev, "intent-filter")
  }

  /** The name a single `<kind>` element contributes: none for other elements and
      for an element without a name. */
  function NameOf(lib: ApkLibrary, ev: XmlEvent, kind: string): seq<string>
    requires IsStart(ev, kind) ==> AttributeRenderable(lib, ev.element.attributes, "name")
  {
    if IsStart(ev, kind) then
      match GetStringAttribute(lib, ev.element, "name")
      case Some(n) => [n]
      case None => []
    else []
  }

  /** The names of the `<kind>` elements of a stretch, in order; unnamed ones are skipped. */
  function NamesOf(lib: ApkLibrary, events: seq<XmlEvent>, kind: string): seq<string>
    requires forall k :: 0 <= k < |events| && IsStart(events[k], kind) ==>
      AttributeRenderable(lib, events[k].element.attributes, "name")
    decreases |events|
  {
    if |events| == 0 then [] else NameOf(lib, events[0], kind) + NamesOf(lib, events[1..], kind)
  }

  /** One step on an open filter, other than opening a new one. */
  lemma StepOnOpenFilter(lib: ApkLibrary, st: ParseState, ev: XmlEvent)
    requires st.intentFilter.Some? && !OpensFilter(ev) && CanStep(lib, st, ev)
    ensures Step(lib, st, ev).intentFilter == Some(st.intentFilter.value.(
      action := st.intentFilter.value.action + NameOf(lib, ev, "action"),
      category := st.intentFilter.value.category + NameOf(lib, ev, "category")))
  {
    var f := st.intentFilter.value;
    if IsStart(ev, "action") {
      assert NameOf(lib, ev, "category") == [] && f.category + [] == f.category;
      if GetStringAttribute(lib, ev.element, "name").None? {
        assert f.action + [] == f.action;
      }
    } else if IsStart(ev, "category") {
      assert NameOf(lib, ev, "action") == [] && f.action + [] == f.action;
      if GetStringAttribute(lib, ev.element, "name").None? {
        assert f.category + [] == f.category;
      }
    } else {
      assert f.action + [] == f.action && f.category + [] == f.category;
    }
  }

  /** While a filter is open and no other opens, the names of `<action>` and
      `<category>` elements are appended to it in stream order, whatever element ends
      or activities come in between; nothing else of the filter changes. */
  lemma {:induction false} NamesAppendToOpenFilter(lib: ApkLibrary, st: ParseState, events: seq<XmlEvent>)
    requires st.intentFilter.Some?
    requires forall k :: 0 <= k < |events| ==> !OpensFilter(events[k])
    requires CanFold(lib, st, events)
    requires forall k :: 0 <= k < |events| && (IsStart(events[k], "action") || IsStart(events[k], "category")) ==>
      AttributeRenderable(lib, events[k].element.attributes, "name")
    ensures Fold(lib, st, events).intentFilter == Some(st.intentFilter.value.(
      action := st.intentFilter.value.action + NamesOf(lib, events, "action"),
      category := st.intentFilter.value.category + NamesOf(lib, events, "category")))
    decreases |events|
  {
    var f := st.intentFilter.value;
    if |events| == 0 {
      assert f.action + [] == f.action && f.category + [] == f.category;
    } else {
      var ev, rest := events[0], events[1..];
      var next := Step(lib, st, ev);
      var na, nc := NameOf(lib, ev, "action"), NameOf(lib, ev, "category");
      assert Fold(lib, st, events) == Fold(lib, next, rest);
      assert NamesOf(lib, events, "action") == na + NamesOf(lib, rest, "action");
      assert NamesOf(lib, events, "category") == nc + NamesOf(lib, rest, "category");
      StepOnOpenFilter(lib, st, ev);
      NamesAppendToOpenFilter(lib, next, rest);
      var ra, rc := NamesOf(lib, rest, "action"), NamesOf(lib, rest, "category");
      var g := next.intentFilter.value;
      assert g == IntentFilter(f.activityName, f.action + na, f.category + nc, f.autoVerify, f.data);
      AppendAssociative(f.action, na, ra);
      AppendAssociative(f.category, nc, rc);
      var want := IntentFilter(f.activityName, f.action + (na + ra), f.category + (nc + rc), f.autoVerify, f.data);
      assert Fold(lib, next, rest).intentFilter == Some(want);
    }
  }

  /** Before the first filter opens, `<action>` and `<category>` elements are dropped:
      no filter exists after a stretch that opens none. */
  lemma {:induction false} NothingOpenWithoutFilterStart(lib: ApkLibrary, st: ParseState, events: seq<XmlEvent>)
    requires st.intentFilter.None?
    requires forall k :: 0 <= k < |events| ==> !OpensFilter(events[k])
    requires CanFold(lib, st, events)
    ensures Fold(lib, st, events).intentFilter.None?
    decreases |events|
  {
    if |events| > 0 {
      NothingOpenWithoutFilterStart(lib, Step(lib, st, events[0]), events[1..]);
    }
  }

  /** Where the manifest comes from. */
  datatype ManifestSource =
    | ManifestMissing
    | ManifestUnreadable
    | ManifestUndecodable
    | ManifestEvents(events: seq<XmlEvent>)

  datatype IoError = NotFound | ReadFailed

  /** `parse_manifest`: a missing or unreadable manifest is an I/O error; otherwise
      the stream is walked (a stream that does not decode is skipped) and an empty
      list is returned, since `<data>` elements are not collected. */
  function ParseManifest(lib: ApkLibrary, source: ManifestSource): (r: Result<seq<IntentFilterData>, IoError>)
    requires source.ManifestEvents? ==> CanFold(lib, InitialState, source.events)
    ensures r.Failure? <==> source.ManifestMissing? || source.ManifestUnreadable?
    ensures source.ManifestMissing? ==> r == Failure(NotFound)
    ensures source.ManifestUnreadable? ==> r == Failure(ReadFailed)
    ensures r.Success? ==> r.value == []
  {
    match source
    case ManifestMissing => Failure(NotFound)
    case ManifestUnreadable => Failure(ReadFailed)
    case ManifestUndecodable => Success([])
    case ManifestEvents(events) =>
      var _ := Fold(lib, InitialState, events);
      Success([])
  }
}
