/**
 * The layered settings lookup: a first pass over every scope's platform
 * sub-map, in scope order, then a second pass over every scope's plain keys.
 * A platform-specific entry in any scope therefore beats a plain entry in
 * every scope, whatever their priorities.
 */
module Lookup {
  import opened Values

  /** The outcome of a lookup: absent, or a value (possibly `Null`) and its label. */
  datatype Lookup = NotFound | Found(value: Value, source: string)

  /** `m.get(k, NO_VALUE) != NO_VALUE`: the key is there and does not hold the marker. */
  predicate Present(m: map<string, Value>, k: string)
  {
    k in m && m[k] != Str(NoValue)
  }

  /** The scope's platform sub-map holds `name`; a platform entry that is not a mapping does not count. */
  predicate PlatformHit(scope: Scope, name: string, p: Platform)
  {
    var key := PlatformKey(p);
    key in scope.settings && scope.settings[key].Dict? && Present(scope.settings[key].entries, name)
  }

  function PlatformValue(scope: Scope, name: string, p: Platform): Value
    requires PlatformHit(scope, name, p)
  {
    scope.settings[PlatformKey(p)].entries[name]
  }

  function OsSpecific(source: string): string
  {
    source + " (os-specific)"
  }

  /** The first loop of `_get_most_specific_setting`. */
  function PlatformPass(name: string, scopes: seq<Scope>, p: Platform): Lookup
    decreases |scopes|
  {
    if |scopes| == 0 then NotFound
    else if PlatformHit(scopes[0], name, p) then
      Found(PlatformValue(scopes[0], name, p), OsSpecific(scopes[0].source))
    else PlatformPass(name, scopes[1..], p)
  }

  /** The second loop of `_get_most_specific_setting`. */
  function PlainPass(name: string, scopes: seq<Scope>): Lookup
    decreases |scopes|
  {
    if |scopes| == 0 then NotFound
    else if Present(scopes[0].settings, name) then Found(scopes[0].settings[name], scopes[0].source)
    else PlainPass(name, scopes[1..])
  }

  /** `_get_most_specific_setting(name, ...)` over the given scope list. */
  function MostSpecific(name: string, scopes: seq<Scope>, p: Platform): Lookup
  {
    var r := PlatformPass(name, scopes, p);
    if r.Found? then r else PlainPass(name, scopes)
  }

  /** Scope `i` is the first whose platform sub-map holds `name`. */
  predicate FirstPlatformHit(name: string, scopes: seq<Scope>, p: Platform, i: int)
  {
    0 <= i < |scopes| && PlatformHit(scopes[i], name, p) &&
    forall j :: 0 <= j < i ==> !PlatformHit(scopes[j], name, p)
  }

  /** Scope `i` is the first whose plain keys hold `name`. */
  predicate FirstPlainHit(name: string, scopes: seq<Scope>, i: int)
  {
    0 <= i < |scopes| && Present(scopes[i].settings, name) &&
    forall j :: 0 <= j < i ==> !Present(scopes[j].settings, name)
  }

  lemma {:induction false} PlatformPassFindsFirst(name: string, scopes: seq<Scope>, p: Platform)
    ensures PlatformPass(name, scopes, p).NotFound? <==>
              forall i :: 0 <= i < |scopes| ==> !PlatformHit(scopes[i], name, p)
    ensures forall i :: FirstPlatformHit(name, scopes, p, i) ==>
              PlatformPass(name, scopes, p) ==
                Found(PlatformValue(scopes[i], name, p), OsSpecific(scopes[i].source))
    decreases |scopes|
  {
    if |scopes| > 0 {
      PlatformPassFindsFirst(name, scopes[1..], p);
      forall i | FirstPlatformHit(name, scopes, p, i) && i > 0
        ensures FirstPlatformHit(name, scopes[1..], p, i - 1)
      {
        forall j | 0 <= j < i - 1 ensures !PlatformHit(scopes[1..][j], name, p) {
          assert scopes[1..][j] == scopes[j + 1];
        }
      }
      if !PlatformHit(scopes[0], name, p) {
        assert (forall i :: 0 <= i < |scopes| ==> !PlatformHit(scopes[i], name, p)) <==>
               (forall i :: 0 <= i < |scopes[1..]| ==> !PlatformHit(scopes[1..][i], name, p));
      }
    }
  }

  lemma {:induction false} PlainPassFindsFirst(name: string, scopes: seq<Scope>)
    ensures PlainPass(name, scopes).NotFound? <==>
              forall i :: 0 <= i < |scopes| ==> !Present(scopes[i].settings, name)
    ensures forall i :: FirstPlainHit(name, scopes, i) ==>
              PlainPass(name, scopes) == Found(scopes[i].settings[name], scopes[i].source)
    decreases |scopes|
  {
    if |scopes| > 0 {
      PlainPassFindsFirst(name, scopes[1..]);
      forall i | FirstPlainHit(name, scopes, i) && i > 0
        ensures FirstPlainHit(name, scopes[1..], i - 1)
      {
        forall j | 0 <= j < i - 1 ensures !Present(scopes[1..][j].settings, name) {
          assert scopes[1..][j] == scopes[j + 1];
        }
      }
      if !Present(scopes[0].settings, name) {
        assert (forall i :: 0 <= i < |scopes| ==> !Present(scopes[i].settings, name)) <==>
               (forall i :: 0 <= i < |scopes[1..]| ==> !Present(scopes[1..][i].settings, name));
      }
    }
  }

  /** The whole lookup: the first platform hit if any scope has one, else the
      first plain hit, else absent. */
  lemma LookupOrder(name: string, scopes: seq<Scope>, p: Platform)
    ensures forall i :: FirstPlatformHit(name, scopes, p, i) ==>
              MostSpecific(name, scopes, p) ==
                Found(PlatformValue(scopes[i], name, p), OsSpecific(scopes[i].source))
    ensures (forall i :: 0 <= i < |scopes| ==> !PlatformHit(scopes[i], name, p)) ==>
              forall i :: FirstPlainHit(name, scopes, i) ==>
                MostSpecific(name, scopes, p) == Found(scopes[i].settings[name], scopes[i].source)
    ensures MostSpecific(name, scopes, p) == NotFound <==>
              forall i :: 0 <= i < |scopes| ==>
                !PlatformHit(scopes[i], name, p) && !Present(scopes[i].settings, name)
  {
    PlatformPassFindsFirst(name, scopes, p);
    PlainPassFindsFirst(name, scopes);
  }

  /** Platform-specificity trumps scope priority: a platform entry in scope
      `j` beats a plain entry in the higher-priority scope `i < j`. */
  lemma OsSpecificBeatsPlain(name: string, scopes: seq<Scope>, p: Platform, i: int, j: int)
    requires 0 <= i < j < |scopes|
    requires Present(scopes[i].settings, name)
    requires FirstPlatformHit(name, scopes, p, j)
    ensures MostSpecific(name, scopes, p) ==
              Found(PlatformValue(scopes[j], name, p), scopes[j].source + " (os-specific)")
  {
    LookupOrder(name, scopes, p);
  }

  /** A platform entry that is not a mapping is skipped: the lookup is the
      same as with that entry removed (for any other setting name). */
  lemma {:induction false} NonDictPlatformIgnored(name: string, scopes: seq<Scope>, p: Platform, i: int)
    requires 0 <= i < |scopes|
    requires PlatformKey(p) in scopes[i].settings && !scopes[i].settings[PlatformKey(p)].Dict?
    requires name != PlatformKey(p)
    ensures MostSpecific(name, scopes, p) ==
              MostSpecific(name, scopes[i := Scope(scopes[i].settings - {PlatformKey(p)}, scopes[i].source)], p)
  {
    PassesIgnoreNonDict(name, scopes, p, i);
  }

  lemma {:induction false} PassesIgnoreNonDict(name: string, scopes: seq<Scope>, p: Platform, i: int)
    requires 0 <= i < |scopes|
    requires PlatformKey(p) in scopes[i].settings && !scopes[i].settings[PlatformKey(p)].Dict?
    requires name != PlatformKey(p)
    ensures var scopes' := scopes[i := Scope(scopes[i].settings - {PlatformKey(p)}, scopes[i].source)];
            PlatformPass(name, scopes, p) == PlatformPass(name, scopes', p) &&
            PlainPass(name, scopes) == PlainPass(name, scopes')
    decreases |scopes|
  {
    var s' := Scope(scopes[i].settings - {PlatformKey(p)}, scopes[i].source);
    var scopes' := scopes[i := s'];
    if i > 0 {
      PassesIgnoreNonDict(name, scopes[1..], p, i - 1);
      assert scopes'[1..] == scopes[1..][i - 1 := s'];
    } else {
      assert scopes'[1..] == scopes[1..];
    }
  }

  /** `debug_enabled`'s coercion of the global `debug` setting: the string
      "0" is false, anything else by Python truthiness; an absent setting is
      `None`, hence false. */
  function DebugEnabled(globalSettings: map<string, Value>): (on: bool)
    ensures "debug" !in globalSettings ==> !on
    ensures "debug" in globalSettings && globalSettings["debug"].Str? ==>
              (on <==> globalSettings["debug"].s != "" && globalSettings["debug"].s != "0")
    ensures "debug" in globalSettings && globalSettings["debug"].Other? ==>
              on == globalSettings["debug"].truthy
    ensures "debug" in globalSettings && globalSettings["debug"] != Str("0") ==>
              (on <==> Truthy(globalSettings["debug"]))
  {
    var value := if "debug" in globalSettings then globalSettings["debug"] else Null;
    if value == Str("0") then false else Truthy(value)
  }
}
