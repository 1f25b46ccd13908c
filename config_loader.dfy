/** `load_config`: validates the parsed configuration tree, splits the skins'
    pattern strings, fills in the four timeouts from a fixed table and writes
    them back. Console messages become an appended log of notices; Python
    exceptions raised on trees of the wrong shape become a `Crashed` outcome. */
module ConfigLoader {
  import opened PyValue
  import opened PatternSplit
  import opened Notices
  import opened TimeoutDefaults

  /** The uncaught exception that ends a load of a tree of the wrong shape. */
  datatype Fault =
    | SkinsNotList                 // `for skin in skins` over a truthy non-list
    | SkinNotMapping(index: nat)   // `skin.get` on an entry that is not a mapping
    | TimeoutsNotMapping           // `timeouts.get` on a present non-mapping

  datatype LoadOutcome =
    | NoSkins                                  // the function returns None
    | Crashed(fault: Fault)
    | Loaded(config: map<string, Value>)

  /** The default timeouts, in their key order. */
  const DefaultTimeouts: Table := [
    ("per_skin", 2),
    ("per_page", 2),
    ("after_server_error", 10),
    ("after_too_many_requests", 60)
  ]

  /** No default in the table is zero. */
  lemma DefaultTimeoutsWellFormed()
    ensures forall i :: 0 <= i < |DefaultTimeouts| ==> DefaultTimeouts[i].1 != 0
  {
  }

  /** No key appears twice in the table. */
  lemma DefaultKeysDistinct()
    ensures DistinctKeys(DefaultTimeouts)
  {
  }

  // ----- Pattern normalization (the loop over the skins) -----

  /** A pattern that the loader splits: a non-empty string. */
  predicate Splittable(pattern: Value) {
    !Falsy(pattern) && pattern.Str?
  }

  function Strs(pieces: seq<string>): seq<Value> {
    seq(|pieces|, j requires 0 <= j < |pieces| => Str(pieces[j]))
  }

  function Texts(vs: seq<Value>): seq<string>
    requires forall j :: 0 <= j < |vs| ==> vs[j].Str?
  {
    seq(|vs|, j requires 0 <= j < |vs| => vs[j].s)
  }

  /** One skin after the body of the pattern loop. */
  function NormalizedSkin(skin: map<string, Value>): map<string, Value> {
    var pattern := Get(skin, "pattern");
    if Splittable(pattern) then skin["pattern" := List(Strs(Split(pattern.s)))]
    else skin
  }

  /** Normalization touches only `pattern`; a non-empty string pattern becomes
      a list of strings, none holding the separator, that join back to it;
      any other pattern (absent, a list, falsy, not a string) is kept; and a
      normalized skin is left as it is by a second pass. */
  lemma NormalizedSkinSpec(skin: map<string, Value>)
    ensures NormalizedSkin(skin).Keys == skin.Keys
    ensures forall key :: key in skin && key != "pattern" ==> NormalizedSkin(skin)[key] == skin[key]
    ensures Splittable(Get(skin, "pattern")) ==>
              var p := NormalizedSkin(skin)["pattern"];
              && p.List? && |p.items| >= 1
              && (forall j :: 0 <= j < |p.items| ==> p.items[j].Str? && !HasSep(p.items[j].s))
              && Join(Texts(p.items)) == skin["pattern"].s
    ensures !Splittable(Get(skin, "pattern")) ==> NormalizedSkin(skin) == skin
    ensures NormalizedSkin(NormalizedSkin(skin)) == NormalizedSkin(skin)
  {
    var pattern := Get(skin, "pattern");
    if Splittable(pattern) {
      var pieces := Split(pattern.s);
      JoinSplit(pattern.s);
      SplitPiecesLackSep(pattern.s);
      assert Texts(Strs(pieces)) == pieces;
      assert forall j :: 0 <= j < |pieces| ==> pieces[j] in pieces;
    }
  }

  predicate AllMappings(items: seq<Value>) {
    forall j :: 0 <= j < |items| ==> items[j].Map?
  }

  /** The skins list after the pattern loop has run to its end. */
  function NormalizedSkins(items: seq<Value>): seq<Value>
    requires AllMappings(items)
  {
    seq(|items|, j requires 0 <= j < |items| => Map(NormalizedSkin(items[j].entries)))
  }

  /** The index of the first entry that is not a mapping: the iteration at
      which `skin.get` raises. */
  function FirstNonMapping(items: seq<Value>): (i: nat)
    requires !AllMappings(items)
    ensures i < |items| && !items[i].Map?
    ensures forall j :: 0 <= j < i ==> items[j].Map?
  {
    if !items[0].Map? then 0
    else
      assert !AllMappings(items[1..]) by {
        var k :| 0 <= k < |items| && !items[k].Map?;
        assert items[1..][k - 1] == items[k];
      }
      1 + FirstNonMapping(items[1..])
  }

  /** What the pattern loop ends with: the skins with every pattern
      normalized, or the index of the first entry that is not a mapping. */
  datatype PatternPass = Normalized(skins: seq<Value>) | NotMapping(index: nat)

  /** The loop over the skins (config.py lines 34-38), rewriting each skin's
      `pattern` in place. */
  method SplitPatterns(items: seq<Value>) returns (pass: PatternPass)
    ensures pass == if AllMappings(items) then Normalized(NormalizedSkins(items))
                    else NotMapping(FirstNonMapping(items))
  {
    var skins := items;
    var i := 0;
    while i < |skins|
      invariant 0 <= i <= |skins| == |items|
      invariant forall j :: 0 <= j < i ==> items[j].Map? && skins[j] == Map(NormalizedSkin(items[j].entries))
      invariant forall j :: i <= j < |skins| ==> skins[j] == items[j]
    {
      if !skins[i].Map? {
        assert !AllMappings(items);
        return NotMapping(i);
      }
      var skin := skins[i].entries;
      var pattern := Get(skin, "pattern");
      if Splittable(pattern) {
        skins := skins[i := Map(skin["pattern" := List(Strs(Split(pattern.s)))])];
      }
      i := i + 1;
    }
    return Normalized(skins);
  }

  /** Normalizing the skins keeps their number and order, and a second pass
      changes nothing. */
  lemma NormalizedSkinsSpec(items: seq<Value>)
    requires AllMappings(items)
    ensures |NormalizedSkins(items)| == |items|
    ensures forall j :: 0 <= j < |items| ==>
              && NormalizedSkins(items)[j].Map?
              && NormalizedSkins(items)[j].entries.Keys == items[j].entries.Keys
    ensures AllMappings(NormalizedSkins(items))
    ensures NormalizedSkins(NormalizedSkins(items)) == NormalizedSkins(items)
  {
    var once := NormalizedSkins(items);
    forall j | 0 <= j < |items|
      ensures once[j].entries.Keys == items[j].entries.Keys
      ensures NormalizedSkin(once[j].entries) == once[j].entries
    {
      NormalizedSkinSpec(items[j].entries);
    }
  }

  // ----- Timeout defaulting -----

  /** The user's timeout mapping, or the default table when there is none. */
  function UserTimeouts(raw: map<string, Value>): map<string, Value>
    requires "timeouts" in raw ==> raw["timeouts"].Map?
  {
    if "timeouts" in raw then raw["timeouts"].entries else AsMapping(DefaultTimeouts)
  }

  /** The default table as the mapping `default_timeouts`. */
  lemma DefaultMapping()
    ensures AsMapping(DefaultTimeouts)
            == map["per_skin" := Int(2), "per_page" := Int(2),
                   "after_server_error" := Int(10), "after_too_many_requests" := Int(60)]
  {
    assert DictOf(DefaultTimeouts, 1) == map["per_skin" := Int(2)];
    assert DictOf(DefaultTimeouts, 2) == map["per_skin" := Int(2), "per_page" := Int(2)];
    assert DictOf(DefaultTimeouts, 3)
           == map["per_skin" := Int(2), "per_page" := Int(2), "after_server_error" := Int(10)];
  }

  /** The timeouts `load_config` writes back, for the user's mapping. */
  function FilledTimeouts(user: map<string, Value>): map<string, Value> {
    FillDefaults(DefaultTimeouts, user, |DefaultTimeouts|)
  }

  /** The "not provided" notices the defaulting loop prints. */
  function TimeoutNotices(user: map<string, Value>): seq<Notice> {
    DefaultNotices(DefaultTimeouts, user, |DefaultTimeouts|)
  }

  /** With no `timeouts` in the tree the result is exactly the table
      {per_skin: 2, per_page: 2, after_server_error: 10,
      after_too_many_requests: 60}, and no key is reported as defaulted. */
  lemma DefaultsWhenTimeoutsAbsent(raw: map<string, Value>)
    requires "timeouts" !in raw
    ensures FilledTimeouts(UserTimeouts(raw))
            == map["per_skin" := Int(2), "per_page" := Int(2),
                   "after_server_error" := Int(10), "after_too_many_requests" := Int(60)]
    ensures TimeoutNotices(UserTimeouts(raw)) == []
  {
    DefaultTimeoutsWellFormed();
    DefaultKeysDistinct();
    DefaultsWhenAbsent(DefaultTimeouts);
    DefaultMapping();
  }

  /** The zero-timeout warning can never fire: after defaulting, `per_skin` and
      `per_page` hold truthy values, and no truthy value equals zero. */
  lemma ZeroWarningUnreachable(user: map<string, Value>)
    ensures "per_skin" in FilledTimeouts(user)
    ensures "per_page" in FilledTimeouts(user)
    ensures !EqualsZero(FilledTimeouts(user)["per_skin"])
    ensures !EqualsZero(FilledTimeouts(user)["per_page"])
  {
    DefaultTimeoutsWellFormed();
    DefaultKeysDistinct();
    var r := FilledTimeouts(user);
    FilledKeysTruthy(DefaultTimeouts, user, 0);
    FilledKeysTruthy(DefaultTimeouts, user, 1);
    if EqualsZero(r["per_skin"]) {
      ZeroIsFalsy(r["per_skin"]);
    }
    if EqualsZero(r["per_page"]) {
      ZeroIsFalsy(r["per_page"]);
    }
  }

  /** The zero check of lines 64-66 on the defaulted mapping. */
  predicate ZeroWarned(timeouts: map<string, Value>) {
    EqualsZero(Get(timeouts, "per_skin")) || EqualsZero(Get(timeouts, "per_page"))
  }

  /** Everything the defaulting step prints: a notice per defaulted key, then
      the zero warning when it fires. */
  function TimeoutLog(user: map<string, Value>): seq<Notice> {
    TimeoutNotices(user) + if ZeroWarned(FilledTimeouts(user)) then [ZeroTimeoutWarning] else []
  }

  /** The defaulting step prints exactly the "not provided" notices, one per
      defaulted key in table order, and never the zero warning. */
  lemma TimeoutLogSpec(user: map<string, Value>)
    ensures TimeoutLog(user) == TimeoutNotices(user)
    ensures ZeroTimeoutWarning !in TimeoutLog(user)
    ensures forall e :: e in TimeoutLog(user) <==>
              exists i :: 0 <= i < |DefaultTimeouts| && Falsy(Get(user, DefaultTimeouts[i].0))
                          && e == TimeoutDefaulted(DefaultTimeouts[i].0, DefaultTimeouts[i].1)
  {
    DefaultTimeoutsWellFormed();
    ZeroWarningUnreachable(user);
    DefaultNoticesMembers(DefaultTimeouts, user, |DefaultTimeouts|);
  }

  /** `timeouts: {per_skin: 5}` fills the other three keys from the table. */
  lemma PartialDefaultingExample()
    ensures FilledTimeouts(map["per_skin" := Int(5)])
            == map["per_skin" := Int(5), "per_page" := Int(2),
                   "after_server_error" := Int(10), "after_too_many_requests" := Int(60)]
  {
    DefaultTimeoutsWellFormed();
    var user := map["per_skin" := Int(5)];
    var t := DefaultTimeouts;
    assert FillDefaults(t, user, 1) == user;
    assert FillDefaults(t, user, 2) == user[t[1].0 := Int(2)];
    assert FillDefaults(t, user, 3) == user[t[1].0 := Int(2)][t[2].0 := Int(10)];
  }

  /** For the same input, "not provided" is reported for those three keys only. */
  lemma PartialDefaultingNotices()
    ensures TimeoutNotices(map["per_skin" := Int(5)])
            == [TimeoutDefaulted("per_page", 2), TimeoutDefaulted("after_server_error", 10),
                TimeoutDefaulted("after_too_many_requests", 60)]
  {
    var user := map["per_skin" := Int(5)];
    var t := DefaultTimeouts;
    assert DefaultNotices(t, user, 1) == [];
    assert DefaultNotices(t, user, 2) == [TimeoutDefaulted(t[1].0, 2)];
    assert DefaultNotices(t, user, 3) == [TimeoutDefaulted(t[1].0, 2), TimeoutDefaulted(t[2].0, 10)];
  }

  // ----- The whole function -----

  /** One call of `load_config`: what it ends with and what it printed. */
  datatype Run = Run(outcome: LoadOutcome, log: seq<Notice>)

  /** The proxy check of lines 72-74 on the finished configuration. */
  function ProxyLog(config: map<string, Value>): seq<Notice> {
    if Falsy(Get(config, "proxy_url")) then [NoProxyNotice] else []
  }

  /** `load_config` on an already parsed tree, step by step as the source
      takes them: the skins check, the pattern loop, the choice of the user's
      timeouts, the defaulting loop with its zero check, the write-back of
      `timeouts` and the proxy check. */
  function Load(raw: map<string, Value>): Run {
    var skins := Get(raw, "skins");
    if Falsy(skins) then Run(NoSkins, [LoadingFile, NoSkinsNotice])
    else if !skins.List? then Run(Crashed(SkinsNotList), [LoadingFile])
    else if !AllMappings(skins.items) then Run(Crashed(SkinNotMapping(FirstNonMapping(skins.items))), [LoadingFile])
    else
      var loaded := [LoadingFile, SkinsLoaded(|skins.items|)];
      if "timeouts" in raw && !raw["timeouts"].Map? then Run(Crashed(TimeoutsNotMapping), loaded)
      else
        var user := UserTimeouts(raw);
        var config := raw["skins" := List(NormalizedSkins(skins.items))]["timeouts" := Map(FilledTimeouts(user))];
        Run(Loaded(config), loaded + TimeoutLog(user) + ProxyLog(config))
  }

  /** The skins value is a non-empty list of mappings: the loop over it runs
      to the end. */
  predicate SkinsAreMappings(raw: map<string, Value>) {
    && "skins" in raw && raw["skins"].List? && raw["skins"].items != []
    && AllMappings(raw["skins"].items)
  }

  /** The defaulting loop over the table followed by the zero check
      (config.py lines 56-66). */
  method ApplyDefaults(user: map<string, Value>) returns (timeouts: map<string, Value>, notices: seq<Notice>)
    ensures timeouts == FilledTimeouts(user)
    ensures notices == TimeoutLog(user)
  {
    DefaultTimeoutsWellFormed();
    timeouts, notices := FillTimeouts(DefaultTimeouts, user);
    if ZeroWarned(timeouts) {
      notices := notices + [ZeroTimeoutWarning];
    }
  }

  /** `load_config` (config.py lines 7-76) on an already parsed tree. */
  method LoadConfig(raw: map<string, Value>) returns (result: LoadOutcome, log: seq<Notice>)
    ensures Run(result, log) == Load(raw)
  {
    log := [LoadingFile];

    var skinsValue := Get(raw, "skins");
    if Falsy(skinsValue) {
      log := log + [NoSkinsNotice];
      return NoSkins, log;
    }
    if !skinsValue.List? {
      return Crashed(SkinsNotList), log;
    }

    var pass := SplitPatterns(skinsValue.items);
    if pass.NotMapping? {
      return Crashed(SkinNotMapping(pass.index)), log;
    }
    var skins := pass.skins;
    log := log + [SkinsLoaded(|skins|)];

    if "timeouts" in raw && !raw["timeouts"].Map? {
      return Crashed(TimeoutsNotMapping), log;
    }
    var user := UserTimeouts(raw);

    var timeouts, notices := ApplyDefaults(user);
    log := log + notices;

    var config := raw["skins" := List(skins)]["timeouts" := Map(timeouts)];
    log := log + ProxyLog(config);
    result := Loaded(config);
  }

  // ----- What a load promises -----

  /** `None` is returned exactly when `skins` is missing or falsy, and then
      nothing after the check has run. */
  lemma LoadNoSkins(raw: map<string, Value>)
    ensures Load(raw).outcome.NoSkins? <==> Falsy(Get(raw, "skins"))
    ensures Load(raw).outcome.NoSkins? ==> Load(raw).log == [LoadingFile, NoSkinsNotice]
  {
  }

  /** The three ways a tree of the wrong shape makes the load raise, each
      with what was printed before it. */
  lemma LoadCrashes(raw: map<string, Value>)
    ensures Load(raw).outcome == Crashed(SkinsNotList) <==>
              !Falsy(Get(raw, "skins")) && !raw["skins"].List?
    ensures (Load(raw).outcome.Crashed? && Load(raw).outcome.fault.SkinNotMapping?) <==>
              !Falsy(Get(raw, "skins")) && raw["skins"].List? && !AllMappings(raw["skins"].items)
    ensures Load(raw).outcome.Crashed? && Load(raw).outcome.fault.SkinNotMapping? ==>
              var items := raw["skins"].items;
              var index := Load(raw).outcome.fault.index;
              && index < |items| && !items[index].Map?
              && (forall j :: 0 <= j < index ==> items[j].Map?)
    ensures Load(raw).outcome == Crashed(TimeoutsNotMapping) <==>
              SkinsAreMappings(raw) && "timeouts" in raw && !raw["timeouts"].Map?
    ensures Load(raw).outcome.Crashed? ==>
              Load(raw).log == if Load(raw).outcome.fault == TimeoutsNotMapping
                               then [LoadingFile, SkinsLoaded(|raw["skins"].items|)]
                               else [LoadingFile]
  {
  }

  /** The load succeeds exactly on a non-empty list of skin mappings with no
      `timeouts` or a mapping there. */
  lemma LoadSucceeds(raw: map<string, Value>)
    ensures Load(raw).outcome.Loaded? <==>
              SkinsAreMappings(raw) && ("timeouts" in raw ==> raw["timeouts"].Map?)
  {
  }

  /** The configuration a successful load returns, with its log. */
  lemma LoadedResult(raw: map<string, Value>)
    requires Load(raw).outcome.Loaded?
    ensures SkinsAreMappings(raw) && ("timeouts" in raw ==> raw["timeouts"].Map?)
    ensures var items := raw["skins"].items;
            var user := UserTimeouts(raw);
            var config := raw["skins" := List(NormalizedSkins(items))]["timeouts" := Map(FilledTimeouts(user))];
            Load(raw) == Run(Loaded(config), [LoadingFile, SkinsLoaded(|items|)] + TimeoutLog(user) + ProxyLog(config))
  {
  }

  /** A successful load keeps every top-level key but `skins` and `timeouts`,
      and adds `timeouts` when it was missing. */
  lemma LoadedKeys(raw: map<string, Value>)
    requires Load(raw).outcome.Loaded?
    ensures var out := Load(raw).outcome.config;
            && out.Keys == raw.Keys + {"timeouts"}
            && forall key :: key in raw && key != "skins" && key != "timeouts" ==> out[key] == raw[key]
  {
    LoadedResult(raw);
  }

  /** A successful load keeps the skins' number, order and fields, with only
      their patterns split. */
  lemma LoadedSkins(raw: map<string, Value>)
    requires Load(raw).outcome.Loaded?
    ensures var items := raw["skins"].items;
            var out := Load(raw).outcome.config["skins"];
            && out.List? && |out.items| == |items|
            && forall j :: 0 <= j < |items| ==>
                 && out.items[j].Map? && items[j].Map?
                 && out.items[j].entries.Keys == items[j].entries.Keys
                 && (forall key :: key in items[j].entries && key != "pattern" ==>
                       out.items[j].entries[key] == items[j].entries[key])
                 && out.items[j].entries == NormalizedSkin(items[j].entries)
  {
    LoadedResult(raw);
    var items := raw["skins"].items;
    NormalizedSkinsSpec(items);
    forall j | 0 <= j < |items| ensures
      forall key :: key in items[j].entries && key != "pattern" ==>
        NormalizedSkin(items[j].entries)[key] == items[j].entries[key]
    {
      NormalizedSkinSpec(items[j].entries);
    }
  }

  /** After a successful load the timeouts hold the user's keys and the
      table keys and no other; each table key holds the user's truthy value
      or else its default, and every other user key keeps its value, falsy
      or not. */
  lemma LoadedTimeouts(raw: map<string, Value>)
    requires Load(raw).outcome.Loaded?
    ensures var user := UserTimeouts(raw);
            var out := Load(raw).outcome.config["timeouts"];
            && out.Map?
            && (forall i :: 0 <= i < |DefaultTimeouts| ==>
                  var key := DefaultTimeouts[i].0;
                  key in out.entries && out.entries[key] == if Falsy(Get(user, key)) then Int(DefaultTimeouts[i].1) else user[key])
            && out.entries.Keys == user.Keys + KeysBefore(DefaultTimeouts, |DefaultTimeouts|)
            && (forall key :: key in user && key !in KeysBefore(DefaultTimeouts, |DefaultTimeouts|) ==>
                  out.entries[key] == user[key])
            && (forall key :: key in user && !Falsy(user[key]) ==> out.entries[key] == user[key])
  {
    LoadedResult(raw);
    var user := UserTimeouts(raw);
    var filled := FilledTimeouts(user);
    DefaultKeysDistinct();
    FillDefaultsSpec(DefaultTimeouts, user, |DefaultTimeouts|);
    forall key | key in user && !Falsy(user[key]) ensures filled[key] == user[key] {
      if key in KeysBefore(DefaultTimeouts, |DefaultTimeouts|) {
        var i :| 0 <= i < |DefaultTimeouts| && key == DefaultTimeouts[i].0;
      }
    }
  }

  /** A successful load prints the loading and count notices, a "not
      provided" notice for each defaulted key in table order, and the proxy
      notice exactly when `proxy_url` is missing or falsy. */
  lemma LoadedLog(raw: map<string, Value>)
    requires Load(raw).outcome.Loaded?
    ensures Load(raw).log == [LoadingFile, SkinsLoaded(|raw["skins"].items|)]
                             + TimeoutNotices(UserTimeouts(raw))
                             + (if Falsy(Get(raw, "proxy_url")) then [NoProxyNotice] else [])
    ensures NoProxyNotice in Load(raw).log <==> Falsy(Get(raw, "proxy_url"))
  {
    var user := UserTimeouts(raw);
    TimeoutLogSpec(user);
    var config := Load(raw).outcome.config;
    assert Get(config, "proxy_url") == Get(raw, "proxy_url");
    assert NoProxyNotice !in TimeoutNotices(user);
  }

  /** The zero-timeout warning is never printed, whatever the tree. */
  lemma NoZeroWarning(raw: map<string, Value>)
    ensures ZeroTimeoutWarning !in Load(raw).log
  {
    if Load(raw).outcome.Loaded? {
      TimeoutLogSpec(UserTimeouts(raw));
    }
  }

  /** Without `timeouts` in the tree the loader writes back exactly the
      default table and reports no key as defaulted. */
  lemma LoadWithoutTimeouts(raw: map<string, Value>)
    requires Load(raw).outcome.Loaded? && "timeouts" !in raw
    ensures Load(raw).outcome.config["timeouts"]
            == Map(map["per_skin" := Int(2), "per_page" := Int(2),
                       "after_server_error" := Int(10), "after_too_many_requests" := Int(60)])
    ensures Load(raw).log == [LoadingFile, SkinsLoaded(|raw["skins"].items|)]
                             + (if Falsy(Get(raw, "proxy_url")) then [NoProxyNotice] else [])
  {
    DefaultsWhenTimeoutsAbsent(raw);
    LoadedLog(raw);
  }

  /** Loading a configuration the loader produced gives it back unchanged,
      with no pattern split again and no key reported as defaulted. */
  lemma ReloadIsStable(raw: map<string, Value>)
    requires Load(raw).outcome.Loaded?
    ensures var config := Load(raw).outcome.config;
            Load(config) == Run(Loaded(config), [LoadingFile, SkinsLoaded(|raw["skins"].items|)] + ProxyLog(config))
  {
    var items := raw["skins"].items;
    var config := Load(raw).outcome.config;
    var user := UserTimeouts(raw);
    var filled := FilledTimeouts(user);
    NormalizedSkinsSpec(items);
    DefaultTimeoutsWellFormed();
    DefaultKeysDistinct();
    DefaultingIdempotent(DefaultTimeouts, user);
    assert UserTimeouts(config) == filled;
    TimeoutLogSpec(filled);
  }
}
