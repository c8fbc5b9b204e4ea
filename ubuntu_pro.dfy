/**
 * The `ubuntu_pro` config module (cc_ubuntu_advantage): choosing the config
 * section, validating it, configuring the `pro` client, attaching with a
 * token and enabling services, and reading the client's JSON error report.
 *
 * The external world is passed in: the `pro` command runner, `urlparse`,
 * `json.loads`, the package installer and the uaclient auto-attach API are
 * fields of `ProEnv`.
 */
module UbuntuPro {
  import opened Wrappers
  import opened Text
  import opened PyValues

  const REDACTED := "REDACTED"

  /** The `message_code` of an error entry that does not count as a failure. */
  const ALREADY_ENABLED := "service-already-enabled"

  const MULTIPLE_DEPRECATED := "Unable to configure Ubuntu Pro. Multiple deprecated config keys provided: "

  /**
   * The deprecated spellings of the section key. The source keeps them in a
   * set, whose iteration order depends on string hashing; `ProEnv` says
   * which order a run sees.
   */
  const DEPRECATED_KEYS: seq<string> := ["ubuntu-advantage", "ubuntu_advantage"]

  /** `KNOWN_UA_CONFIG_PROPS`: the `config` keys whose values must be http(s) URLs. */
  const KNOWN_UA_CONFIG_PROPS: seq<string> := [
    "http_proxy",
    "https_proxy",
    "global_apt_http_proxy",
    "global_apt_https_proxy",
    "ua_apt_http_proxy",
    "ua_apt_https_proxy"
  ]

  /** One entry of the `errors` list in the JSON output of `pro enable`. */
  datatype EnableErrorEntry = EnableErrorEntry(
    messageCode: string,
    service: Option<string>,
    message: string,
    errorType: string)

  /**
   * A call to `subp.subp`: the argument vector and the `logstring` that is
   * logged instead of it, if any.
   */
  datatype Invocation = Invocation(args: seq<string>, logstring: Option<seq<string>>)

  /** What the uaclient `full_auto_attach` API did. */
  datatype AutoAttachResult = Attached | AlreadyAttached | AttachFailed(msg: string)

  /** Which attach path `handle` takes once the section has been validated. */
  datatype AttachPath = AutoAttach | TokenAttach | NoAttach

  /**
   * The collaborators of the module.
   * - `run(args)`: `subp.subp(args)` with the accepted return codes; `Some(text)`
   *   is a `ProcessExecutionError` whose `str()` is `text`.
   * - `runCapture(args)`: `subp.subp(args, capture=True)`; `Ok(stdout)` or the error text.
   * - `parseEnableResponse(stdout)`: `json.loads(stdout).get("errors", [])`; `None`
   *   when the output is not JSON.
   * - `urlScheme(value)`: `urlparse(value).scheme`; `None` when `urlparse` raises `ValueError`.
   * - `installTools`: the outcome of `maybe_install_ua_tools`.
   * - `shouldAutoAttach`: the uaclient answer; `None` when it raised `UserFacingError`.
   * - `autoAttach`: the outcome of `full_auto_attach`.
   * - `deprecatedReversed`: whether iterating the set `DEPRECATED_KEYS` yields
   *   its keys in the reverse of the order listed here.
   */
  datatype ProEnv = ProEnv(
    run: seq<string> -> Option<string>,
    runCapture: seq<string> -> Result<string, string>,
    parseEnableResponse: string -> Option<seq<EnableErrorEntry>>,
    urlScheme: string -> Option<string>,
    installTools: Outcome<PyError>,
    shouldAutoAttach: Option<bool>,
    autoAttach: AutoAttachResult,
    deprecatedReversed: bool)

  // ===========================================================================
  // validate_schema_features

  /** The `features` mapping of a section, or `None` if it has none or it is not a dict. */
  function FeaturesOf(section: Dict): Option<Dict>
  {
    var f := Get(section, "features");
    if f.Some? && f.value.VDict? then Some(f.value.entries) else None
  }

  /** `validate_schema_features`: the `features` sub-mapping and its `disable_auto_attach` flag are type-checked. */
  function ValidateSchemaFeatures(section: Dict): (r: Outcome<PyError>)
    ensures !HasKey(section, "features") ==> r == Pass
    ensures HasKey(section, "features") && FeaturesOf(section).None? ==>
      r == Fail(RuntimeError("'ubuntu_pro.features' should be a dict, not a "
                             + TypeName(Get(section, "features").value)))
    ensures FeaturesOf(section).Some? && HasKey(FeaturesOf(section).value, "disable_auto_attach")
            && !Get(FeaturesOf(section).value, "disable_auto_attach").value.VBool? ==>
      r == Fail(RuntimeError("'ubuntu_pro.features.disable_auto_attach' should be a bool, not a "
                             + TypeName(Get(FeaturesOf(section).value, "disable_auto_attach").value)))
    ensures r.Pass? <==>
      (!HasKey(section, "features")
       || (FeaturesOf(section).Some?
           && forall v :: Get(FeaturesOf(section).value, "disable_auto_attach") == Some(v) ==> v.VBool?))
  {
    match Get(section, "features")
    case None => Pass
    case Some(features) =>
      if !features.VDict? then
        Fail(RuntimeError("'ubuntu_pro.features' should be a dict, not a " + TypeName(features)))
      else
        match Get(features.entries, "disable_auto_attach")
        case None => Pass
        case Some(flag) =>
          if flag.VBool? then Pass
          else Fail(RuntimeError("'ubuntu_pro.features.disable_auto_attach' should be a bool, not a "
                                 + TypeName(flag)))
  }

  // ===========================================================================
  // supplemental_schema_validation

  /** A problem found with one value of the `config` mapping. */
  datatype ConfigError = NotHttpScheme(key: string) | NotUrl(key: string)

  function ConfigErrorMessage(e: ConfigError): string
  {
    match e
    case NotHttpScheme(k) => "Expected URL scheme http/https for ua:config:" + k
    case NotUrl(k) => "Expected a URL for ua:config:" + k
  }

  function ConfigErrorMessages(errs: seq<ConfigError>): (r: seq<string>)
    ensures |r| == |errs|
    ensures forall i :: 0 <= i < |errs| ==> r[i] == ConfigErrorMessage(errs[i])
  {
    if errs == [] then [] else [ConfigErrorMessage(errs[0])] + ConfigErrorMessages(errs[1..])
  }

  /**
   * The check of one `config` entry. Unknown keys and `None` values are not
   * checked. `urlparse` of a non-string raises `AttributeError` when the value
   * is truthy and parses as the empty URL (empty scheme) when it is falsy.
   */
  function CheckConfigEntry(key: string, value: Value, urlScheme: string -> Option<string>): (r: Option<ConfigError>)
    ensures r.Some? ==> r.value.key == key
    ensures r.Some? <==>
      key in KNOWN_UA_CONFIG_PROPS && !value.VNone?
      && !(value.VStr? && urlScheme(value.s) in {Some("http"), Some("https")})
  {
    if key !in KNOWN_UA_CONFIG_PROPS || value.VNone? then None
    else if !value.VStr? then
      (if Truthy(value) then Some(NotUrl(key)) else Some(NotHttpScheme(key)))
    else
      match urlScheme(value.s)
      case None => Some(NotUrl(key))
      case Some(scheme) => if scheme == "http" || scheme == "https" then None else Some(NotHttpScheme(key))
  }

  /** The errors collected by the validation loop over `items`, in their order. */
  function ConfigErrors(items: Dict, urlScheme: string -> Option<string>): seq<ConfigError>
  {
    if items == [] then []
    else
      var last := items[|items| - 1];
      ConfigErrors(items[..|items| - 1], urlScheme)
      + match CheckConfigEntry(last.0, last.1, urlScheme) case Some(e) => [e] case None => []
  }

  /** What `supplemental_schema_validation` raises for the collected errors. */
  function ValidationOutcome(errs: seq<ConfigError>): Outcome<PyError>
  {
    if errs == [] then Pass
    else Fail(ValueError("Invalid ubuntu_pro configuration:\n" + Join("\n", ConfigErrorMessages(errs))))
  }

  /** `supplemental_schema_validation`: checks the entries in sorted key order and raises if any failed. */
  method SupplementalSchemaValidation(uaConfig: Dict, urlScheme: string -> Option<string>)
    returns (r: Outcome<PyError>)
    ensures r == ValidationOutcome(ConfigErrors(SortByKey(uaConfig), urlScheme))
  {
    var items := SortByKey(uaConfig);
    var errors: seq<ConfigError> := [];
    var i := 0;
    while i < |items|
      invariant 0 <= i <= |items|
      invariant errors == ConfigErrors(items[..i], urlScheme)
    {
      var (key, value) := items[i];
      assert items[..i + 1][..i] == items[..i];
      if key !in KNOWN_UA_CONFIG_PROPS {
        // logged as "Not validating unknown ubuntu_pro.config.<key> property"
      } else if value.VNone? {
        // the key will be unset
      } else if !value.VStr? {
        errors := errors + [if Truthy(value) then NotUrl(key) else NotHttpScheme(key)];
      } else {
        match urlScheme(value.s)
        case None =>
          errors := errors + [NotUrl(key)];
        case Some(scheme) =>
          if scheme != "http" && scheme != "https" {
            errors := errors + [NotHttpScheme(key)];
          }
      }
      i := i + 1;
    }
    assert items[..|items|] == items;
    if errors == [] {
      r := Pass;
    } else {
      r := Fail(ValueError("Invalid ubuntu_pro configuration:\n" + Join("\n", ConfigErrorMessages(errors))));
    }
  }

  /**
   * Exactly the entries that fail their check produce an error, one each,
   * carrying the entry's key.
   */
  lemma {:induction false} ConfigErrorsExact(items: Dict, urlScheme: string -> Option<string>)
    ensures forall e :: e in ConfigErrors(items, urlScheme) <==>
      exists i :: 0 <= i < |items| && CheckConfigEntry(items[i].0, items[i].1, urlScheme) == Some(e)
    ensures |ConfigErrors(items, urlScheme)| <= |items|
  {
    if items != [] {
      var init := items[..|items| - 1];
      ConfigErrorsExact(init, urlScheme);
      forall i | 0 <= i < |init| ensures init[i] == items[i] { }
    }
  }

  /**
   * When the entries come sorted with unique keys (as `sorted(d.items())`
   * gives them), the error messages follow strictly ascending keys, so each
   * key is reported at most once and in sorted order.
   */
  lemma {:induction false} ConfigErrorsSorted(items: Dict, urlScheme: string -> Option<string>)
    requires forall i, j :: 0 <= i < j < |items| ==> StrLt(items[i].0, items[j].0)
    ensures var errs := ConfigErrors(items, urlScheme);
      forall i, j :: 0 <= i < j < |errs| ==> StrLt(errs[i].key, errs[j].key)
  {
    if items != [] {
      var init := items[..|items| - 1];
      var last := items[|items| - 1];
      forall i, j | 0 <= i < j < |init| ensures StrLt(init[i].0, init[j].0) {
        assert init[i] == items[i] && init[j] == items[j];
      }
      ConfigErrorsSorted(init, urlScheme);
      ConfigErrorsExact(init, urlScheme);
      var before := ConfigErrors(init, urlScheme);
      var tail := match CheckConfigEntry(last.0, last.1, urlScheme) case Some(e) => [e] case None => [];
      var errs := ConfigErrors(items, urlScheme);
      assert errs == before + tail;
      forall i, j | 0 <= i < j < |errs| ensures StrLt(errs[i].key, errs[j].key) {
        assert errs[i] == before[i];
        if j >= |before| {
          assert errs[j] == tail[0] && tail[0].key == last.0;
          assert before[i] in before;
          var m :| 0 <= m < |init| && CheckConfigEntry(init[m].0, init[m].1, urlScheme) == Some(before[i]);
          assert init[m] == items[m];
        } else {
          assert errs[j] == before[j];
        }
      }
    }
  }

  /** The validation raises exactly when some known key holds a value that is not an http(s) URL. */
  lemma ValidationFailsIff(uaConfig: Dict, urlScheme: string -> Option<string>)
    ensures ValidationOutcome(ConfigErrors(SortByKey(uaConfig), urlScheme)).Fail? <==>
      exists k, v :: (k, v) in uaConfig && CheckConfigEntry(k, v, urlScheme).Some?
  {
    var items := SortByKey(uaConfig);
    ConfigErrorsExact(items, urlScheme);
    var errs := ConfigErrors(items, urlScheme);
    if errs != [] {
      assert errs[0] in errs;
      var i :| 0 <= i < |items| && CheckConfigEntry(items[i].0, items[i].1, urlScheme) == Some(errs[0]);
      assert items[i] in multiset(uaConfig);
    }
    if exists k, v :: (k, v) in uaConfig && CheckConfigEntry(k, v, urlScheme).Some? {
      var k, v :| (k, v) in uaConfig && CheckConfigEntry(k, v, urlScheme).Some?;
      assert (k, v) in multiset(items);
      var i :| 0 <= i < |items| && items[i] == (k, v);
      assert CheckConfigEntry(k, v, urlScheme).value in errs;
    }
  }

  // ===========================================================================
  // set_ua_config

  /** The `key=value` argument of `pro config set`; the value is `re.escape`d only when it holds whitespace. */
  function ConfigSetArg(key: string, value: string): string
  {
    key + "=" + (if HasWhitespace(value) then ReEscape(value) else value)
  }

  /**
   * The command for one `config` entry, or `None` where Python raises
   * `TypeError` (`re.search` on a value that is neither `None` nor a string).
   */
  function ConfigCommand(key: string, value: Value): (r: Option<Invocation>)
    ensures value.VNone? ==> r == Some(Invocation(["pro", "config", "unset", key], None))
    ensures value.VStr? ==>
      r.Some? && |r.value.args| == 4 && r.value.args[..3] == ["pro", "config", "set"]
      && r.value.args[3] == ConfigSetArg(key, value.s)
      && r.value.logstring == Some(r.value.args[..3] + [key + "=" + REDACTED])
    ensures r.None? <==> !value.VNone? && !value.VStr?
  {
    match value
    case VNone => Some(Invocation(["pro", "config", "unset", key], None))
    case VStr(s) =>
      var args := ["pro", "config", "set", ConfigSetArg(key, s)];
      Some(Invocation(args, Some(args[..3] + [key + "=" + REDACTED])))
    case _ => None
  }

  /** The value can be read back from the `key=value` argument, so escaping changes nothing `pro` sees. */
  lemma ConfigSetArgRecoversValue(key: string, value: string)
    ensures |ConfigSetArg(key, value)| >= |key| + 1
    ensures ConfigSetArg(key, value)[..|key| + 1] == key + "="
    ensures var rest := ConfigSetArg(key, value)[|key| + 1..];
      if HasWhitespace(value) then Unescape(rest) == value else rest == value
  {
    var arg := ConfigSetArg(key, value);
    var tail := if HasWhitespace(value) then ReEscape(value) else value;
    assert arg == (key + "=") + tail;
    assert arg[|key| + 1..] == tail;
    UnescapeReEscape(value);
  }

  /** The error text kept for a failing command: the value (when there is one) is replaced by `REDACTED`. */
  function RedactError(err: string, value: Value): string
  {
    if value.VStr? then Replace(err, value.s, REDACTED) else err
  }

  /** A value that shares no letter with `REDACTED` never survives in a redacted error text. */
  lemma RedactErrorHidesValue(err: string, value: string)
    requires value != []
    requires forall c :: c in value ==> c !in REDACTED
    ensures !Contains(RedactError(err, VStr(value)), value)
  {
    ReplaceHidesSecret(err, value, REDACTED);
  }

  /** What the `set_ua_config` loop has done so far. */
  datatype ConfigTrace = ConfigTrace(
    invocations: seq<Invocation>,
    failures: seq<(string, string)>,
    crash: Option<PyError>)

  /** One iteration of the `set_ua_config` loop. */
  function ConfigStep(t: ConfigTrace, key: string, value: Value, run: seq<string> -> Option<string>): ConfigTrace
  {
    match ConfigCommand(key, value)
    case None =>
      t.(crash := Some(TypeError("expected string or bytes-like object, got '" + TypeName(value) + "'")))
    case Some(inv) =>
      var failures := match run(inv.args)
        case None => t.failures
        case Some(err) => t.failures + [(key, RedactError(err, value))];
      ConfigTrace(t.invocations + [inv], failures, None)
  }

  /** The `set_ua_config` loop over `items`; it stops at the first `TypeError`. */
  function ConfigLoop(items: Dict, run: seq<string> -> Option<string>): ConfigTrace
  {
    if items == [] then ConfigTrace([], [], None)
    else
      var t := ConfigLoop(items[..|items| - 1], run);
      if t.crash.Some? then t
      else ConfigStep(t, items[|items| - 1].0, items[|items| - 1].1, run)
  }

  function Quote(s: string): string { "\"" + s + "\"" }

  function QuotedKeys(failures: seq<(string, string)>): (r: seq<string>)
    ensures |r| == |failures|
    ensures forall i :: 0 <= i < |failures| ==> r[i] == Quote(failures[i].0)
  {
    if failures == [] then [] else [Quote(failures[0].0)] + QuotedKeys(failures[1..])
  }

  /** How `set_ua_config` ends after its loop. */
  function ConfigLoopOutcome(t: ConfigTrace): Outcome<PyError>
  {
    if t.crash.Some? then Fail(t.crash.value)
    else if t.failures == [] then Pass
    else Fail(RuntimeError("Failure enabling/disabling Ubuntu Pro config(s): " + Join(", ", QuotedKeys(t.failures))))
  }

  /** The `pro config` commands `set_ua_config` runs: none unless `config` is a dict that passes validation. */
  function ConfigInvocations(uaConfig: Value, urlScheme: string -> Option<string>, run: seq<string> -> Option<string>)
    : seq<Invocation>
  {
    if uaConfig.VDict? && ValidationOutcome(ConfigErrors(SortByKey(uaConfig.entries), urlScheme)).Pass?
    then ConfigLoop(SortByKey(uaConfig.entries), run).invocations
    else []
  }

  /**
   * `set_ua_config`: nothing for `None`; an error for a non-dict; otherwise
   * validation, then one `pro config` command per entry in sorted key order.
   */
  method SetUaConfig(uaConfig: Value, urlScheme: string -> Option<string>, run: seq<string> -> Option<string>)
    returns (invocations: seq<Invocation>, failures: seq<(string, string)>, r: Outcome<PyError>)
    ensures uaConfig.VNone? ==> invocations == [] && r == Pass
    ensures !uaConfig.VNone? && !uaConfig.VDict? ==>
      invocations == [] && r == Fail(RuntimeError("ubuntu_pro: config should be a dict, not a "
        + TypeName(uaConfig) + "; skipping enabling config parameters"))
    ensures uaConfig.VDict? && ValidationOutcome(ConfigErrors(SortByKey(uaConfig.entries), urlScheme)).Fail? ==>
      invocations == [] && r == ValidationOutcome(ConfigErrors(SortByKey(uaConfig.entries), urlScheme))
    ensures uaConfig.VDict? && ValidationOutcome(ConfigErrors(SortByKey(uaConfig.entries), urlScheme)).Pass? ==>
      var t := ConfigLoop(SortByKey(uaConfig.entries), run);
      invocations == t.invocations && failures == t.failures && r == ConfigLoopOutcome(t)
    ensures r.Pass? <==> ConfigApplies(uaConfig, urlScheme, run)
    ensures invocations == ConfigInvocations(uaConfig, urlScheme, run)
  {
    invocations, failures := [], [];
    if uaConfig.VNone? {
      return invocations, failures, Pass;
    }
    if !uaConfig.VDict? {
      r := Fail(RuntimeError("ubuntu_pro: config should be a dict, not a " + TypeName(uaConfig)
                             + "; skipping enabling config parameters"));
      return;
    }
    r := SupplementalSchemaValidation(uaConfig.entries, urlScheme);
    if r.Fail? {
      return;
    }
    invocations, failures, r := ApplyConfigEntries(SortByKey(uaConfig.entries), run);
  }

  /** The loop of `set_ua_config`: one `pro config` command per entry, stopping on a `TypeError`. */
  method ApplyConfigEntries(items: Dict, run: seq<string> -> Option<string>)
    returns (invocations: seq<Invocation>, failures: seq<(string, string)>, r: Outcome<PyError>)
    ensures var t := ConfigLoop(items, run);
      invocations == t.invocations && failures == t.failures && r == ConfigLoopOutcome(t)
  {
    invocations, failures := [], [];
    var i := 0;
    while i < |items|
      invariant 0 <= i <= |items|
      invariant ConfigLoop(items[..i], run) == ConfigTrace(invocations, failures, None)
    {
      var (key, value) := items[i];
      assert items[..i + 1][..i] == items[..i];
      assert ConfigLoop(items[..i + 1], run) == ConfigStep(ConfigTrace(invocations, failures, None), key, value, run);
      if !value.VNone? && !value.VStr? {
        assert items[..|items|] == items;
        ConfigLoopStops(items, i, run);
        r := Fail(TypeError("expected string or bytes-like object, got '" + TypeName(value) + "'"));
        return;
      }
      var configCmd: seq<string>;
      var logstring: Option<seq<string>> := None;
      if value.VNone? {
        configCmd := ["pro", "config", "unset", key];
      } else {
        configCmd := ["pro", "config", "set", ConfigSetArg(key, value.s)];
        logstring := Some(configCmd[..3] + [key + "=" + REDACTED]);
      }
      invocations := invocations + [Invocation(configCmd, logstring)];
      match run(configCmd) {
        case None =>
        case Some(err) =>
          var errMsg := err;
          if value.VStr? {
            errMsg := Replace(err, value.s, REDACTED);
          }
          failures := failures + [(key, errMsg)];
      }
      i := i + 1;
    }
    assert items[..|items|] == items;
    if failures == [] {
      r := Pass;
    } else {
      r := Fail(RuntimeError("Failure enabling/disabling Ubuntu Pro config(s): " + Join(", ", QuotedKeys(failures))));
    }
  }

  /** Once the loop has crashed it stays crashed: the trace of a longer prefix is the same. */
  lemma {:induction false} ConfigLoopStops(items: Dict, i: nat, run: seq<string> -> Option<string>)
    requires i < |items|
    requires ConfigLoop(items[..i], run).crash.None?
    requires !items[i].1.VNone? && !items[i].1.VStr?
    ensures ConfigLoop(items, run) == ConfigLoop(items[..i], run).(crash :=
      Some(TypeError("expected string or bytes-like object, got '" + TypeName(items[i].1) + "'")))
    decreases |items|
  {
    if i == |items| - 1 {
      assert items[..|items| - 1] == items[..i];
    } else {
      assert items[..|items| - 1][..i] == items[..i];
      ConfigLoopStops(items[..|items| - 1], i, run);
    }
  }

  /**
   * Without a crash, the loop issues one command per entry, in the entries'
   * order, each being `ConfigCommand` of that entry.
   */
  lemma {:induction false} ConfigLoopCommands(items: Dict, run: seq<string> -> Option<string>)
    requires ConfigLoop(items, run).crash.None?
    ensures |ConfigLoop(items, run).invocations| == |items|
    ensures forall i :: 0 <= i < |items| ==>
      ConfigCommand(items[i].0, items[i].1) == Some(ConfigLoop(items, run).invocations[i])
  {
    if items != [] {
      var init := items[..|items| - 1];
      var t := ConfigLoop(init, run);
      if t.crash.Some? {
        assert false;
      }
      ConfigLoopCommands(init, run);
      forall i | 0 <= i < |init| ensures init[i] == items[i] { }
    }
  }

  /**
   * The reported failures are exactly the entries whose command failed, in
   * the entries' order, each with the runner's error text redacted.
   */
  lemma {:induction false} ConfigLoopFailures(items: Dict, run: seq<string> -> Option<string>)
    requires ConfigLoop(items, run).crash.None?
    ensures forall f :: f in ConfigLoop(items, run).failures <==>
      exists i, err :: 0 <= i < |items| && ConfigCommand(items[i].0, items[i].1).Some?
        && run(ConfigCommand(items[i].0, items[i].1).value.args) == Some(err)
        && f == (items[i].0, RedactError(err, items[i].1))
  {
    if items != [] {
      var init := items[..|items| - 1];
      var t := ConfigLoop(init, run);
      if t.crash.Some? {
        assert false;
      }
      ConfigLoopFailures(init, run);
      forall i | 0 <= i < |init| ensures init[i] == items[i] { }
    }
  }

  /** With sorted unique keys the failing keys are named in strictly ascending order. */
  lemma {:induction false} ConfigLoopFailuresSorted(items: Dict, run: seq<string> -> Option<string>)
    requires forall i, j :: 0 <= i < j < |items| ==> StrLt(items[i].0, items[j].0)
    requires ConfigLoop(items, run).crash.None?
    ensures forall i, j :: 0 <= i < j < |ConfigLoop(items, run).failures| ==>
      StrLt(ConfigLoop(items, run).failures[i].0, ConfigLoop(items, run).failures[j].0)
  {
    if items != [] {
      var init := items[..|items| - 1];
      var last := items[|items| - 1];
      var t := ConfigLoop(init, run);
      if t.crash.Some? {
        assert false;
      }
      ConfigLoopFailuresSorted(init, run);
      ConfigLoopFailures(init, run);
      forall i | 0 <= i < |t.failures| ensures StrLt(t.failures[i].0, last.0) {
        assert t.failures[i] in t.failures;
        var m, err :| 0 <= m < |init| && ConfigCommand(init[m].0, init[m].1).Some?
          && run(ConfigCommand(init[m].0, init[m].1).value.args) == Some(err)
          && t.failures[i] == (init[m].0, RedactError(err, init[m].1));
        assert init[m] == items[m];
      }
    }
  }

  // ===========================================================================
  // configure_ua

  /** The normalisation of `enable` at the start of `configure_ua`. */
  function NormalizeEnable(enable: Value): (r: seq<Value>)
    ensures enable.VList? ==> r == enable.items
    ensures enable.VStr? ==> r == [enable]
    ensures !enable.VList? && !enable.VStr? ==> r == []
  {
    match enable
    case VNone => []
    case VStr(_) => [enable]
    case VList(items) => items
    case _ => []
  }

  /** `pro attach [--no-auto-enable] <token>` */
  function AttachCommand(token: string, enable: seq<Value>): (r: seq<string>)
    ensures |r| >= 3 && r[..2] == ["pro", "attach"] && r[|r| - 1] == token
    ensures ("--no-auto-enable" in r[..|r| - 1]) <==> enable != []
  {
    if enable != [] then
      var r := ["pro", "attach", "--no-auto-enable", token];
      assert r[..3][2] == "--no-auto-enable";
      r
    else
      var r := ["pro", "attach", token];
      assert "--no-auto-enable"[0] != "pro"[0] && "--no-auto-enable"[0] != "attach"[0];
      assert r[..2] == ["pro", "attach"];
      r
  }

  /** `cmd[:-1] + [REDACTED]` */
  function RedactLast(cmd: seq<string>): (r: seq<string>)
    requires |cmd| > 0
    ensures |r| == |cmd| && r[|r| - 1] == REDACTED
    ensures forall i :: 0 <= i < |cmd| - 1 ==> r[i] == cmd[i]
  {
    cmd[..|cmd| - 1] + [REDACTED]
  }

  /** The logged attach command does not depend on the token at all. */
  lemma RedactedAttachHidesToken(token: string, other: string, enable: seq<Value>)
    ensures RedactLast(AttachCommand(token, enable)) == RedactLast(AttachCommand(other, enable))
  {
  }

  /** `pro enable --assume-yes --format json <services...>` */
  function EnableCommand(services: seq<string>): (r: seq<string>)
    ensures |r| == 5 + |services|
    ensures r[..5] == ["pro", "enable", "--assume-yes", "--format", "json"] && r[5..] == services
  {
    ["pro", "enable", "--assume-yes", "--format", "json"] + services
  }

  predicate AllStrings(vs: seq<Value>)
  {
    forall i :: 0 <= i < |vs| ==> vs[i].VStr?
  }

  function Strings(vs: seq<Value>): (r: seq<string>)
    requires AllStrings(vs)
    ensures |r| == |vs| && forall i :: 0 <= i < |vs| ==> vs[i] == VStr(r[i])
  {
    if vs == [] then [] else [vs[0].s] + Strings(vs[1..])
  }

  /** The errors that remain after dropping those with code `service-already-enabled`. */
  function RemainingErrors(errors: seq<EnableErrorEntry>): seq<EnableErrorEntry>
  {
    if errors == [] then []
    else
      RemainingErrors(errors[..|errors| - 1])
      + (if errors[|errors| - 1].messageCode == ALREADY_ENABLED then [] else [errors[|errors| - 1]])
  }

  /** The non-null `service` fields of a list of errors, in order. */
  function ServicesOf(errors: seq<EnableErrorEntry>): seq<string>
  {
    if errors == [] then []
    else
      ServicesOf(errors[..|errors| - 1])
      + match errors[|errors| - 1].service case Some(s) => [s] case None => []
  }

  /** The message logged for one remaining error. */
  function EnableErrorMessage(e: EnableErrorEntry): string
  {
    match e.service
    case Some(s) => "Failure enabling `" + s + "`: " + e.message
    case None => "Failure of type `" + e.errorType + "`: " + e.message
  }

  /** The messages logged for the remaining errors, in order. */
  function EnableErrorMessages(errors: seq<EnableErrorEntry>): seq<string>
  {
    if errors == [] then []
    else EnableErrorMessages(errors[..|errors| - 1]) + [EnableErrorMessage(errors[|errors| - 1])]
  }

  /** The first loop of `configure_ua` over the `errors` list: already-enabled services are not failures. */
  method DropAlreadyEnabled(errors: seq<EnableErrorEntry>) returns (remaining: seq<EnableErrorEntry>)
    ensures remaining == RemainingErrors(errors)
  {
    remaining := [];
    var i := 0;
    while i < |errors|
      invariant 0 <= i <= |errors|
      invariant remaining == RemainingErrors(errors[..i])
    {
      assert errors[..i + 1][..i] == errors[..i];
      if errors[i].messageCode != ALREADY_ENABLED {
        remaining := remaining + [errors[i]];
      }
      i := i + 1;
    }
    assert errors[..|errors|] == errors;
  }

  /** The second loop: the failing services and the message logged for each remaining error. */
  method ReportEnableErrors(remaining: seq<EnableErrorEntry>) returns (services: seq<string>, messages: seq<string>)
    ensures services == ServicesOf(remaining)
    ensures messages == EnableErrorMessages(remaining)
  {
    services, messages := [], [];
    var j := 0;
    while j < |remaining|
      invariant 0 <= j <= |remaining|
      invariant services == ServicesOf(remaining[..j])
      invariant messages == EnableErrorMessages(remaining[..j])
    {
      var err := remaining[j];
      assert remaining[..j + 1][..j] == remaining[..j];
      var service := err.service;
      if service.Some? {
        services := services + [service.value];
      }
      messages := messages + [EnableErrorMessage(err)];
      j := j + 1;
    }
    assert remaining[..|remaining|] == remaining;
  }

  /** `pro enable` fails exactly when some error has a code other than `service-already-enabled`. */
  lemma {:induction false} RemainingErrorsExact(errors: seq<EnableErrorEntry>)
    ensures forall e :: e in RemainingErrors(errors) <==> e in errors && e.messageCode != ALREADY_ENABLED
    ensures RemainingErrors(errors) == [] <==> forall i :: 0 <= i < |errors| ==> errors[i].messageCode == ALREADY_ENABLED
  {
    if errors != [] {
      var init := errors[..|errors| - 1];
      RemainingErrorsExact(init);
      assert errors == init + [errors[|errors| - 1]];
      forall i | 0 <= i < |init| ensures init[i] == errors[i] { }
    }
  }

  /** Single-pass reference: the services of errors that are not already enabled, in input order. */
  function ReportedServices(errors: seq<EnableErrorEntry>): seq<string>
  {
    if errors == [] then []
    else
      var e := errors[0];
      (if e.messageCode != ALREADY_ENABLED && e.service.Some? then [e.service.value] else [])
      + ReportedServices(errors[1..])
  }

  lemma ServicesOfAppend(a: seq<EnableErrorEntry>, b: seq<EnableErrorEntry>)
    ensures ServicesOf(a + b) == ServicesOf(a) + ServicesOf(b)
    decreases |b|
  {
    if b != [] {
      assert a + b == (a + b[..|b| - 1]) + [b[|b| - 1]];
      assert (a + b)[..|a + b| - 1] == a + b[..|b| - 1];
      ServicesOfAppend(a, b[..|b| - 1]);
    } else {
      assert a + b == a;
    }
  }

  lemma {:induction false} RemainingErrorsCons(e: EnableErrorEntry, rest: seq<EnableErrorEntry>)
    ensures RemainingErrors([e] + rest) ==
      (if e.messageCode == ALREADY_ENABLED then [] else [e]) + RemainingErrors(rest)
    decreases |rest|
  {
    if rest != [] {
      var init := rest[..|rest| - 1];
      var whole := [e] + rest;
      assert whole[..|whole| - 1] == [e] + init;
      assert whole[|whole| - 1] == rest[|rest| - 1];
      RemainingErrorsCons(e, init);
    }
  }

  /**
   * The services reported in the final error are exactly the non-null
   * `service` fields of the errors that are not `service-already-enabled`,
   * in input order.
   */
  lemma {:induction false} ReportedServicesCorrect(errors: seq<EnableErrorEntry>)
    ensures ServicesOf(RemainingErrors(errors)) == ReportedServices(errors)
  {
    if errors != [] {
      var e := errors[0];
      assert errors == [e] + errors[1..];
      RemainingErrorsCons(e, errors[1..]);
      ReportedServicesCorrect(errors[1..]);
      var head := if e.messageCode == ALREADY_ENABLED then [] else [e];
      ServicesOfAppend(head, RemainingErrors(errors[1..]));
      assert head == [] ==> ServicesOf(head) == [];
      assert head != [] ==> ServicesOf(head) == ServicesOf([]) + (match e.service case Some(s) => [s] case None => []);
    }
  }

  /** The commands a step runs, in order, and how it ends. */
  datatype Run = Run(calls: seq<seq<string>>, outcome: Outcome<PyError>)

  const ATTACH_FAILURE := "Failure attaching Ubuntu Pro:\n"

  /** What `configure_ua` runs and how it ends, as a function of its inputs. */
  function ConfigureUaRun(token: string, enable: Value, env: ProEnv): Run
  {
    var services := NormalizeEnable(enable);
    var attach := AttachCommand(token, services);
    match env.run(attach)
    case Some(e) => Run([attach], Fail(RuntimeError(ATTACH_FAILURE + Replace(e, token, REDACTED))))
    case None =>
      if services == [] then Run([attach], Pass)
      else if !AllStrings(services) then Run([attach], Fail(TypeError("expected str, bytes or os.PathLike object")))
      else Run([attach, EnableCommand(Strings(services))], EnableOutcome(Strings(services), env))
  }

  /**
   * `configure_ua`: attach with the token, then enable the requested
   * services. `calls` lists the commands run, in order.
   */
  method ConfigureUa(token: string, enable: Value, env: ProEnv)
    returns (calls: seq<seq<string>>, r: Outcome<PyError>)
    ensures Run(calls, r) == ConfigureUaRun(token, enable, env)
    ensures |calls| >= 1 && calls[0] == AttachCommand(token, NormalizeEnable(enable))
    ensures env.run(calls[0]).Some? ==>
      calls == [calls[0]]
      && r == Fail(RuntimeError(ATTACH_FAILURE + Replace(env.run(calls[0]).value, token, REDACTED)))
    ensures NormalizeEnable(enable) == [] ==>
      calls == [calls[0]] && r == (if env.run(calls[0]).Some? then r else Pass)
    ensures env.run(calls[0]).None? && NormalizeEnable(enable) != [] && !AllStrings(NormalizeEnable(enable)) ==>
      calls == [calls[0]] && r.Fail? && r.error.TypeError?
    ensures env.run(calls[0]).None? && NormalizeEnable(enable) != [] && AllStrings(NormalizeEnable(enable)) ==>
      var services := Strings(NormalizeEnable(enable));
      calls == [calls[0], EnableCommand(services)]
      && r == EnableOutcome(services, env)
  {
    var services := NormalizeEnable(enable);
    var attachCmd := if services != [] then ["pro", "attach", "--no-auto-enable", token] else ["pro", "attach", token];
    calls := [attachCmd];
    match env.run(attachCmd)
    case Some(e) =>
      r := Fail(RuntimeError(ATTACH_FAILURE + Replace(e, token, REDACTED)));
      return;
    case None =>
    if services == [] {
      return calls, Pass;
    }
    if !AllStrings(services) {
      r := Fail(TypeError("expected str, bytes or os.PathLike object"));
      return;
    }
    var names := Strings(services);
    var cmd := ["pro", "enable", "--assume-yes", "--format", "json"] + names;
    calls := calls + [cmd];
    match env.runCapture(cmd)
    case Err(_) =>
      r := Fail(RuntimeError("Error while enabling service(s): " + Join(", ", names)));
    case Ok(stdout) =>
      match env.parseEnableResponse(stdout)
      case None =>
        r := Fail(RuntimeError("UA response was not json: " + stdout));
      case Some(errors) =>
        var remaining := DropAlreadyEnabled(errors);
        var failed, messages := ReportEnableErrors(remaining);
        if remaining == [] {
          r := Pass;
        } else {
          r := Fail(RuntimeError("Failure enabling Ubuntu Pro service(s): " + Join(", ", failed)));
        }
  }

  /**
   * A failed attach never reveals the token: apart from the fixed prefix,
   * the error text has every occurrence replaced by `REDACTED`.
   */
  lemma AttachFailureHidesToken(token: string, enable: Value, env: ProEnv)
    requires token != [] && forall c :: c in token ==> c !in REDACTED
    requires env.run(AttachCommand(token, NormalizeEnable(enable))).Some?
    ensures var err := env.run(AttachCommand(token, NormalizeEnable(enable))).value;
      ConfigureUaRun(token, enable, env) == Run([AttachCommand(token, NormalizeEnable(enable))],
                                                Fail(RuntimeError(ATTACH_FAILURE + Replace(err, token, REDACTED))))
      && !Contains(Replace(err, token, REDACTED), token)
  {
    ReplaceHidesSecret(env.run(AttachCommand(token, NormalizeEnable(enable))).value, token, REDACTED);
  }

  /** How the `pro enable` step ends, given the services to enable. */
  function EnableOutcome(services: seq<string>, env: ProEnv): Outcome<PyError>
  {
    match env.runCapture(EnableCommand(services))
    case Err(_) => Fail(RuntimeError("Error while enabling service(s): " + Join(", ", services)))
    case Ok(stdout) =>
      match env.parseEnableResponse(stdout)
      case None => Fail(RuntimeError("UA response was not json: " + stdout))
      case Some(errors) =>
        if RemainingErrors(errors) == [] then Pass
        else Fail(RuntimeError("Failure enabling Ubuntu Pro service(s): "
                               + Join(", ", ServicesOf(RemainingErrors(errors)))))
  }

  /**
   * The enable step fails on a well-formed report exactly when some error is
   * not `service-already-enabled`, and then names the reported services.
   */
  lemma EnableOutcomeOnReport(services: seq<string>, env: ProEnv, stdout: string, errors: seq<EnableErrorEntry>)
    requires env.runCapture(EnableCommand(services)) == Ok(stdout)
    requires env.parseEnableResponse(stdout) == Some(errors)
    ensures EnableOutcome(services, env).Pass? <==>
      forall i :: 0 <= i < |errors| ==> errors[i].messageCode == ALREADY_ENABLED
    ensures EnableOutcome(services, env).Fail? ==>
      EnableOutcome(services, env) ==
        Fail(RuntimeError("Failure enabling Ubuntu Pro service(s): " + Join(", ", ReportedServices(errors))))
  {
    RemainingErrorsExact(errors);
    ReportedServicesCorrect(errors);
  }

  // ===========================================================================
  // _attach

  const TOKEN_REQUIRED := "`ubuntu_pro.token` required in non-Pro Ubuntu instances."

  /** The index of the first item that is not a string. */
  function FirstNonString(vs: seq<Value>): (i: nat)
    requires !AllStrings(vs)
    ensures i < |vs| && !vs[i].VStr?
    ensures forall j :: 0 <= j < i ==> vs[j].VStr?
  {
    if !vs[0].VStr? then 0
    else
      assert !AllStrings(vs[1..]) by {
        var k :| 0 <= k < |vs| && !vs[k].VStr?;
        assert vs[1..][k - 1] == vs[k];
      }
      1 + FirstNonString(vs[1..])
  }

  /**
   * The `TypeError` raised by `", ".join(v)`, or `None` when the join
   * succeeds: a string joins its characters, a dict its (string) keys, a
   * list its items when they are all strings.
   */
  function JoinTypeError(v: Value): (r: Option<string>)
    ensures r.None? <==> v.VStr? || v.VDict? || (v.VList? && AllStrings(v.items))
  {
    match v
    case VStr(_) => None
    case VDict(_) => None
    case VList(items) =>
      if AllStrings(items) then None
      else
        var i := FirstNonString(items);
        Some("sequence item " + DecimalString(i) + ": expected str instance, " + TypeName(items[i]) + " found")
    case _ => Some("can only join an iterable")
  }

  /** The error of joining a truthy `enable_beta` for the debug message, if any. */
  function BetaJoinError(section: Dict): Option<string>
  {
    var beta := GetOr(section, "enable_beta", VNone);
    if Truthy(beta) then JoinTypeError(beta) else None
  }

  /** `_attach` goes on to `configure_ua`: a truthy string token and a joinable `enable_beta`. */
  predicate AttachReachesConfigure(section: Dict)
  {
    var token := GetOr(section, "token", VNone);
    Truthy(token) && token.VStr? && BetaJoinError(section).None?
  }

  /** What `_attach` runs and how it ends, as a function of the section. */
  function AttachRun(section: Dict, env: ProEnv): Run
  {
    var token := GetOr(section, "token", VNone);
    if !Truthy(token) then Run([], Fail(RuntimeError(TOKEN_REQUIRED)))
    else if BetaJoinError(section).Some? then Run([], Fail(TypeError(BetaJoinError(section).value)))
    else if !token.VStr? then Run([], Fail(TypeError("expected str, bytes or os.PathLike object, not " + TypeName(token))))
    else ConfigureUaRun(token.s, GetOr(section, "enable", VNone), env)
  }

  /**
   * `_attach`: a truthy token is required; a truthy `enable_beta` is only
   * joined into a log message, which raises `TypeError` when it holds
   * something other than strings; then `configure_ua` runs.
   */
  method AttachWithToken(section: Dict, env: ProEnv) returns (calls: seq<seq<string>>, r: Outcome<PyError>)
    ensures Run(calls, r) == AttachRun(section, env)
    ensures !Truthy(GetOr(section, "token", VNone)) ==> calls == [] && r == Fail(RuntimeError(TOKEN_REQUIRED))
    ensures Truthy(GetOr(section, "token", VNone)) && BetaJoinError(section).Some? ==>
      calls == [] && r == Fail(TypeError(BetaJoinError(section).value))
    ensures AttachReachesConfigure(section) ==>
      Run(calls, r) == ConfigureUaRun(GetOr(section, "token", VNone).s, GetOr(section, "enable", VNone), env)
      && |calls| >= 1
      && calls[0] == AttachCommand(GetOr(section, "token", VNone).s, NormalizeEnable(GetOr(section, "enable", VNone)))
    ensures calls != [] ==> AttachReachesConfigure(section)
  {
    var token := GetOr(section, "token", VNone);
    if !Truthy(token) {
      return [], Fail(RuntimeError(TOKEN_REQUIRED));
    }
    var beta := GetOr(section, "enable_beta", VNone);
    if Truthy(beta) {
      match JoinTypeError(beta)
      case Some(msg) =>
        return [], Fail(TypeError(msg));
      case None =>
    }
    if !token.VStr? {
      return [], Fail(TypeError("expected str, bytes or os.PathLike object, not " + TypeName(token)));
    }
    calls, r := ConfigureUa(token.s, GetOr(section, "enable", VNone), env);
  }

  /** A list with a non-string item gives exactly Python's message, naming the first such item. */
  lemma JoinTypeErrorNamesItem(items: seq<Value>, i: nat)
    requires i < |items| && !items[i].VStr?
    requires forall j :: 0 <= j < i ==> items[j].VStr?
    ensures JoinTypeError(VList(items))
      == Some("sequence item " + DecimalString(i) + ": expected str instance, " + TypeName(items[i]) + " found")
  {
    var k := FirstNonString(items);
    assert !(k < i) && !(i < k);
  }

  // ===========================================================================
  // handle

  /** Where `handle` stands after looking for the section. */
  datatype Preflight = Skip | Reject(error: PyError) | Proceed(section: Dict)

  /** `DEPRECATED_KEYS` in the set's iteration order. */
  function DeprecatedOrder(reversed: bool): (r: seq<string>)
    ensures |r| == 2 && multiset(r) == multiset(DEPRECATED_KEYS)
  {
    if reversed then [DEPRECATED_KEYS[1], DEPRECATED_KEYS[0]] else DEPRECATED_KEYS
  }

  /** `list(DEPRECATED_KEYS.intersection(cfg))`: the deprecated keys present in `cfg`, in iteration order. */
  function DeprecatedPresent(cfg: Dict, reversed: bool): (r: seq<string>)
    ensures forall k :: k in r <==> k in DEPRECATED_KEYS && HasKey(cfg, k)
    ensures |r| <= 2
  {
    var order := DeprecatedOrder(reversed);
    (if HasKey(cfg, order[0]) then [order[0]] else [])
    + (if HasKey(cfg, order[1]) then [order[1]] else [])
  }

  /** The part of `handle` that picks the section and rejects malformed ones. */
  function SelectSection(cfg: Dict, reversed: bool): Preflight
  {
    var deprecated := DeprecatedPresent(cfg, reversed);
    if |deprecated| > 1 then
      Reject(RuntimeError(MULTIPLE_DEPRECATED + Join(", ", deprecated)))
    else
      var section :=
        if HasKey(cfg, "ubuntu_pro") then GetOr(cfg, "ubuntu_pro", VNone)
        else if |deprecated| == 1 then GetOr(cfg, deprecated[0], VNone)
        else VNone;
      CheckSection(section)
  }

  /** The checks `handle` makes of the chosen section value. */
  function CheckSection(section: Value): Preflight
  {
    match section
    case VNone => Skip
    case VDict(entries) =>
      if HasKey(entries, "commands") then
        Reject(RuntimeError("Deprecated configuration \"ubuntu-advantage: commands\" provided. Expected \"token\""))
      else Proceed(entries)
    case _ => Reject(RuntimeError("'ubuntu_pro' should be a dict, not a " + TypeName(section)))
  }

  /**
   * Both deprecated keys at once are an error, whatever else is configured;
   * the message lists them in the set's iteration order.
   */
  lemma SelectRejectsTwoDeprecated(cfg: Dict, reversed: bool)
    requires HasKey(cfg, "ubuntu-advantage") && HasKey(cfg, "ubuntu_advantage")
    ensures SelectSection(cfg, reversed) == Reject(RuntimeError(MULTIPLE_DEPRECATED + Join(", ", DeprecatedOrder(reversed))))
  {
    assert DeprecatedPresent(cfg, reversed) == DeprecatedOrder(reversed);
  }

  /** So the message lists the two keys in one order or the other. */
  lemma DeprecatedOrderJoined(reversed: bool)
    ensures !reversed ==> Join(", ", DeprecatedOrder(reversed)) == "ubuntu-advantage, ubuntu_advantage"
    ensures reversed ==> Join(", ", DeprecatedOrder(reversed)) == "ubuntu_advantage, ubuntu-advantage"
  {
    var order := DeprecatedOrder(reversed);
    assert order[1..] == [order[1]];
    assert Join(", ", order) == order[0] + ", " + order[1];
    if reversed {
      assert order[0] + ", " + order[1] == "ubuntu_advantage, ubuntu-advantage";
    } else {
      assert order[0] + ", " + order[1] == "ubuntu-advantage, ubuntu_advantage";
    }
  }

  /** The set's iteration order matters only for that message: any other outcome is the same. */
  lemma SelectOrderIrrelevant(cfg: Dict)
    requires !(HasKey(cfg, "ubuntu-advantage") && HasKey(cfg, "ubuntu_advantage"))
    ensures SelectSection(cfg, true) == SelectSection(cfg, false)
  {
    assert DeprecatedPresent(cfg, true) == DeprecatedPresent(cfg, false);
  }

  /** `ubuntu_pro` wins over a single deprecated key. */
  lemma SelectPrefersUbuntuPro(cfg: Dict, reversed: bool)
    requires HasKey(cfg, "ubuntu_pro")
    requires !(HasKey(cfg, "ubuntu-advantage") && HasKey(cfg, "ubuntu_advantage"))
    ensures SelectSection(cfg, reversed) == CheckSection(Get(cfg, "ubuntu_pro").value)
  {
  }

  /** A deprecated key alone is used as if it were `ubuntu_pro`. */
  lemma SelectFallsBackToDeprecated(cfg: Dict, reversed: bool, key: string)
    requires key in DEPRECATED_KEYS && HasKey(cfg, key)
    requires !HasKey(cfg, "ubuntu_pro")
    requires forall k :: k in DEPRECATED_KEYS && k != key ==> !HasKey(cfg, k)
    ensures SelectSection(cfg, reversed) == CheckSection(Get(cfg, key).value)
  {
    var d := DeprecatedPresent(cfg, reversed);
    assert d == [key];
  }

  /** Without any section key the module does nothing. */
  lemma SelectSkipsWithoutSection(cfg: Dict, reversed: bool)
    requires !HasKey(cfg, "ubuntu_pro") && !HasKey(cfg, "ubuntu-advantage") && !HasKey(cfg, "ubuntu_advantage")
    ensures SelectSection(cfg, reversed) == Skip
  {
    assert DeprecatedPresent(cfg, reversed) == [];
  }

  /** A section that is not a dict, or that has a `commands` key, is rejected; only dicts proceed. */
  lemma CheckSectionRejects(section: Value)
    ensures CheckSection(section).Proceed? <==> section.VDict? && !HasKey(section.entries, "commands")
    ensures CheckSection(section).Skip? <==> section.VNone?
    ensures CheckSection(section).Proceed? ==> CheckSection(section).section == section.entries
  {
  }

  /** `_should_auto_attach`: false when `features.disable_auto_attach` is truthy, otherwise the uaclient answer (false on error). */
  function ShouldAutoAttach(section: Dict, answer: Option<bool>): bool
  {
    var features := FeaturesOf(section).GetOr([]);
    if Truthy(GetOr(features, "disable_auto_attach", VBool(false))) then false
    else answer.GetOr(false)
  }

  /** The attach decision at the end of `handle`. */
  function ChooseAttach(section: Dict, answer: Option<bool>): AttachPath
  {
    if ShouldAutoAttach(section, answer) then AutoAttach
    else if !(Keys(section) <= {"features"}) then TokenAttach
    else NoAttach
  }

  /** Disabling auto-attach means token attach if anything beyond `features` is given, else nothing. */
  lemma DisableAutoAttachSkipsAuto(section: Dict, answer: Option<bool>)
    requires FeaturesOf(section).Some?
    requires Get(FeaturesOf(section).value, "disable_auto_attach") == Some(VBool(true))
    ensures ChooseAttach(section, answer) != AutoAttach
    ensures Keys(section) == {"features"} ==> ChooseAttach(section, answer) == NoAttach
  {
  }

  /** The outcome of `_auto_attach`: already attached is not an error. */
  function AutoAttachOutcome(result: AutoAttachResult): Outcome<PyError>
  {
    match result
    case Attached => Pass
    case AlreadyAttached => Pass
    case AttachFailed(msg) => Fail(RuntimeError("Error during `full_auto_attach`: " + msg))
  }

  /** `set_ua_config` of the section's `config` completes without raising. */
  predicate ConfigApplies(uaConfig: Value, urlScheme: string -> Option<string>, run: seq<string> -> Option<string>)
  {
    uaConfig.VNone?
    || (uaConfig.VDict?
        && ValidationOutcome(ConfigErrors(SortByKey(uaConfig.entries), urlScheme)).Pass?
        && ConfigLoopOutcome(ConfigLoop(SortByKey(uaConfig.entries), run)).Pass?)
  }

  /**
   * The part of `handle` after the section was accepted: install the tools,
   * apply `config`, validate `features`, then auto-attach or attach with the
   * token. `path` is the attach decision when it got that far.
   */
  method ApplySection(section: Dict, env: ProEnv)
    returns (configCalls: seq<Invocation>, attachCalls: seq<seq<string>>, path: Option<AttachPath>, r: Outcome<PyError>)
    ensures env.installTools.Fail? ==> r == env.installTools && configCalls == [] && path == None
    ensures env.installTools.Pass? ==>
      configCalls == ConfigInvocations(GetOr(section, "config", VNone), env.urlScheme, env.run)
    ensures path.Some? <==>
      env.installTools.Pass?
      && ConfigApplies(GetOr(section, "config", VNone), env.urlScheme, env.run)
      && ValidateSchemaFeatures(section).Pass?
    ensures path.Some? ==> path.value == ChooseAttach(section, env.shouldAutoAttach)
    ensures path.None? ==> r.Fail? && attachCalls == []
    ensures path == Some(AutoAttach) ==> r == AutoAttachOutcome(env.autoAttach) && attachCalls == []
    ensures path == Some(NoAttach) ==> r == Pass && attachCalls == []
    ensures path == Some(TokenAttach) ==> Run(attachCalls, r) == AttachRun(section, env)
    ensures path == Some(TokenAttach) && !Truthy(GetOr(section, "token", VNone)) ==>
      attachCalls == [] && r == Fail(RuntimeError(TOKEN_REQUIRED))
    ensures path == Some(TokenAttach) && AttachReachesConfigure(section) ==>
      |attachCalls| >= 1
      && attachCalls[0] == AttachCommand(GetOr(section, "token", VNone).s, NormalizeEnable(GetOr(section, "enable", VNone)))
    ensures attachCalls != [] ==> path == Some(TokenAttach) && AttachReachesConfigure(section)
  {
    configCalls, attachCalls, path := [], [], None;
    if env.installTools.Fail? {
      return configCalls, attachCalls, path, env.installTools;
    }
    var failures;
    configCalls, failures, r := SetUaConfig(GetOr(section, "config", VNone), env.urlScheme, env.run);
    if r.Fail? {
      return;
    }
    r := ValidateSchemaFeatures(section);
    if r.Fail? {
      return;
    }
    var choice := ChooseAttach(section, env.shouldAutoAttach);
    path := Some(choice);
    match choice {
      case AutoAttach =>
        r := AutoAttachOutcome(env.autoAttach);
      case TokenAttach =>
        attachCalls, r := AttachWithToken(section, env);
      case NoAttach =>
        r := Pass;
    }
  }

  /** `handle`: select and check the section, then apply it. */
  method Handle(cfg: Dict, env: ProEnv)
    returns (configCalls: seq<Invocation>, attachCalls: seq<seq<string>>, path: Option<AttachPath>, r: Outcome<PyError>)
    ensures !SelectSection(cfg, env.deprecatedReversed).Proceed? ==>
      configCalls == [] && attachCalls == [] && path == None
    ensures SelectSection(cfg, env.deprecatedReversed).Skip? ==> r == Pass
    ensures SelectSection(cfg, env.deprecatedReversed).Reject? ==> r == Fail(SelectSection(cfg, env.deprecatedReversed).error)
    ensures SelectSection(cfg, env.deprecatedReversed).Proceed? ==>
      var section := SelectSection(cfg, env.deprecatedReversed).section;
      (env.installTools.Fail? ==> r == env.installTools && configCalls == [] && path == None)
      && (env.installTools.Pass? ==>
            configCalls == ConfigInvocations(GetOr(section, "config", VNone), env.urlScheme, env.run))
      && (path.Some? <==>
            env.installTools.Pass?
            && ConfigApplies(GetOr(section, "config", VNone), env.urlScheme, env.run)
            && ValidateSchemaFeatures(section).Pass?)
      && (path.Some? ==> path.value == ChooseAttach(section, env.shouldAutoAttach))
      && (path == Some(TokenAttach) ==> Run(attachCalls, r) == AttachRun(section, env))
      && (path == Some(TokenAttach) && !Truthy(GetOr(section, "token", VNone)) ==>
            attachCalls == [] && r == Fail(RuntimeError(TOKEN_REQUIRED)))
      && (path == Some(TokenAttach) && AttachReachesConfigure(section) ==>
            |attachCalls| >= 1
            && attachCalls[0] == AttachCommand(GetOr(section, "token", VNone).s, NormalizeEnable(GetOr(section, "enable", VNone))))
    ensures path.None? ==> r.Fail? || SelectSection(cfg, env.deprecatedReversed).Skip?
    ensures path == Some(AutoAttach) ==> r == AutoAttachOutcome(env.autoAttach) && attachCalls == []
    ensures path == Some(NoAttach) ==> r == Pass && attachCalls == []
    ensures attachCalls != [] ==> path == Some(TokenAttach)
  {
    match SelectSection(cfg, env.deprecatedReversed) {
      case Skip =>
        return [], [], None, Pass;
      case Reject(e) =>
        return [], [], None, Fail(e);
      case Proceed(section) =>
        configCalls, attachCalls, path, r := ApplySection(section, env);
    }
  }
}
