# cloud-init: Ubuntu Pro, users and groups, package mirrors

A Dafny model of three pieces of cloud-init, with proofs about it:

- **`ubuntu_pro`** (`cloudinit/config/cc_ubuntu_advantage.py`, module `UbuntuPro`).
  The module first picks the config section. `ubuntu_pro` wins over the two
  deprecated spellings, and both deprecated spellings at once are an error.
  It then rejects malformed sections and validates the `config` mapping
  (known proxy keys must hold http(s) URLs). It runs one `pro config set` or
  `pro config unset` per entry, in sorted key order, with the value redacted
  from logs and errors. It then type-checks `features`. Finally it either
  auto-attaches or attaches with the token. Token attach runs `pro attach`,
  then `pro enable` for the requested services, and reads the client's JSON
  error report, where `service-already-enabled` is not a failure.
- **`users_groups`** (`cloudinit/config/cc_users_groups.py`, module `UsersGroups`).
  The module creates every group, then every user. On the way it checks each
  user's `ssh_redirect_user` setting and rewrites it to the default user.
  `Distro` is a class whose `created` log the loops extend.
- **Package-mirror resolution** (module `PackageMirrors`), as pinned down by
  `TestGetPackageMirrorInfo` in `tests/unittests/distros/test_init.py`. Each
  mirror key takes the filtered candidate list of its `search` templates when
  that list is truthy, and its `failsafe` value otherwise. Templates are
  filled with `%(region)s`, `%(availability_zone)s` and `%(ec2_region)s`. The
  hostname of each resulting URL is then made DNS-safe in three steps:
  1. IDNA encoding when it is non-ASCII;
  2. every character other than letters, digits, `-` and `.` becomes `-`;
  3. each label loses its leading and trailing hyphens.

  IP-address hosts and the rest of the URL are left unchanged. URLs that
  `urlsplit` cannot parse are dropped. Module `MirrorExamples` holds each
  test case as a lemma about the model, generalised over the test's data. It
  also holds `INVALID_URL_CHARS`, the test's loop-built character list, as a
  method with its loops.

Supporting modules:

- `Wrappers` defines `Option` and `Result`, plus `Outcome`, which is pass or
  raise.
- `Text` covers `str.join`, `str.replace`, `re.escape`, `\s`, `str.lower` on
  ASCII, `str.split`, `str.strip` and Python string order.
- `PyValues` covers Python configuration values, and dicts as insertion-ordered
  association lists with `get`, `pop`, item assignment and `sorted(d.items())`.

Some operations call into code outside this model. These become parameters,
passed as function values or record fields:
- the `pro` command runner (`subp.subp`);
- `urlparse(...).scheme`;
- `json.loads` of the enable report;
- the tool installer;
- the uaclient `should_auto_attach` and `full_auto_attach` APIs;
- the mirror filter;
- IDNA encoding.

In the model, "raises E" is `Fail(E)` and returning is `Pass`.

The IDNA test cases (`tests/unittests/distros/test_init.py:149-164`) fix the
order of the first two steps. Replacing invalid characters first would turn the
non-ASCII region `ТεЅТ̣` into hyphens before it could be encoded as
`xn--idna--4kd53hh6aba3q`, so the model encodes first.

## Model

| member | source | states |
|---|---|---|
| UbuntuPro.ValidateSchemaFeatures | cloudinit/config/cc_ubuntu_advantage.py:153-177 | No `features` key passes. A non-dict `features` raises `RuntimeError` naming its type. A non-bool `disable_auto_attach` raises `RuntimeError` naming its type. The check passes iff `features` is absent, or is a dict whose flag, if present, is a bool. |
| UbuntuPro.CheckConfigEntry | cloudinit/config/cc_ubuntu_advantage.py:194-211 | An entry is reported iff its key is one of `KNOWN_UA_CONFIG_PROPS`, its value is not `None`, and the value is not a string whose URL scheme is `http` or `https`. The report carries the key. |
| UbuntuPro.ConfigErrorMessages | cloudinit/config/cc_ubuntu_advantage.py:207-215 | One message per collected error, in the same order. |
| UbuntuPro.SupplementalSchemaValidation | cloudinit/config/cc_ubuntu_advantage.py:193-216 | The loop's outcome equals the report of the entries checked in sorted key order. It raises `ValueError` listing them when there are any. |
| UbuntuPro.ConfigErrorsExact | cloudinit/config/cc_ubuntu_advantage.py:193-212 | Exactly the entries whose check fails produce an error. There is one error per such entry, so never more errors than entries. |
| UbuntuPro.ConfigErrorsSorted | cloudinit/config/cc_ubuntu_advantage.py:194-212 | Entries come in `sorted(...items())` order. So the errors name their keys in strictly ascending order, each key at most once. |
| UbuntuPro.ValidationFailsIff | cloudinit/config/cc_ubuntu_advantage.py:193-216 | Validation raises iff some known key of the dict holds a value other than `None` or an http(s) URL. |
| UbuntuPro.ConfigCommand | cloudinit/config/cc_ubuntu_advantage.py:232-245 | `None` gives `pro config unset <key>`. A string gives `pro config set` with the `ConfigSetArg` argument `<key>=<value>`, logged as `<key>=REDACTED`. Any other value raises `TypeError`; that happens exactly when the value is neither `None` nor a string. |
| UbuntuPro.ConfigSetArgRecoversValue | cloudinit/config/cc_ubuntu_advantage.py:238-244 | The argument is `<key>=` followed by the value. The value is `re.escape`d exactly when it contains whitespace, and unescaping gives it back. |
| UbuntuPro.RedactErrorHidesValue | cloudinit/config/cc_ubuntu_advantage.py:248-252 | A non-empty value that shares no character with `REDACTED` no longer occurs in the recorded error text. |
| UbuntuPro.QuotedKeys | cloudinit/config/cc_ubuntu_advantage.py:253-259 | The final error quotes each failing key, in failure order. |
| UbuntuPro.SetUaConfig | cloudinit/config/cc_ubuntu_advantage.py:219-260 | `None` is a no-op. A non-dict raises `RuntimeError` naming its type. A failed validation raises before any command runs. Otherwise the commands, failures and outcome are those of the config loop over the sorted entries. The commands run are `ConfigInvocations` in every case. The call raises nothing iff `ConfigApplies`. |
| UbuntuPro.ApplyConfigEntries | cloudinit/config/cc_ubuntu_advantage.py:230-260 | The loop's commands, recorded failures and outcome equal `ConfigLoop`, the step-by-step definition of the loop. |
| UbuntuPro.ConfigLoopStops | cloudinit/config/cc_ubuntu_advantage.py:231-247 | Suppose entry `i` is the first whose value is neither `None` nor a string. Then the loop ends with the trace of the entries before it plus a `TypeError` naming the value's type. |
| UbuntuPro.ConfigLoopCommands | cloudinit/config/cc_ubuntu_advantage.py:231-247 | Without a `TypeError`, the loop issues one command per entry, in entry order. Command `i` is that entry's `pro config` command. |
| UbuntuPro.ConfigLoopFailures | cloudinit/config/cc_ubuntu_advantage.py:246-252 | The recorded failures are exactly the entries whose command failed. Each pairs the key with the runner's error text, value redacted. |
| UbuntuPro.ConfigLoopFailuresSorted | cloudinit/config/cc_ubuntu_advantage.py:231-259 | With sorted unique keys, the failing keys are reported in strictly ascending order. |
| UbuntuPro.NormalizeEnable | cloudinit/config/cc_ubuntu_advantage.py:265-279 | A list is kept and a string becomes a one-element list. Every other value, `None` included, becomes `[]`. |
| UbuntuPro.AttachCommand | cloudinit/config/cc_ubuntu_advantage.py:282-285 | The command is `pro attach … <token>`, ending in the token. It contains `--no-auto-enable` iff services are to be enabled. |
| UbuntuPro.RedactLast | cloudinit/config/cc_ubuntu_advantage.py:286 | The logged command is the command with its last word replaced by `REDACTED`. |
| UbuntuPro.RedactedAttachHidesToken | cloudinit/config/cc_ubuntu_advantage.py:286-290 | The logged attach command is the same whatever the token. |
| UbuntuPro.EnableCommand | cloudinit/config/cc_ubuntu_advantage.py:300 | `pro enable --assume-yes --format json` followed by exactly the services, in order. |
| UbuntuPro.DropAlreadyEnabled | cloudinit/config/cc_ubuntu_advantage.py:337-342 | The first loop keeps exactly the errors whose `message_code` is not `service-already-enabled`, in order. |
| UbuntuPro.ReportEnableErrors | cloudinit/config/cc_ubuntu_advantage.py:344-353 | The second loop collects the non-null `service` of each remaining error, and one log message per error. |
| UbuntuPro.RemainingErrorsExact | cloudinit/config/cc_ubuntu_advantage.py:337-344 | An error remains iff it is in the report and not `service-already-enabled`. None remain iff every error is `service-already-enabled`. |
| UbuntuPro.ReportedServicesCorrect | cloudinit/config/cc_ubuntu_advantage.py:337-358 | The services named in the error are the non-null `service` fields of the errors that are not already enabled, in input order. A single-pass reference definition gives the same list. |
| UbuntuPro.ConfigureUa | cloudinit/config/cc_ubuntu_advantage.py:263-358 | The call runs exactly `ConfigureUaRun`. Attach runs first. An attach error raises `RuntimeError` with the token redacted, and nothing else runs. With no services the call stops after attach. When every service is a string, `pro enable` runs with exactly those services and the call ends as `EnableOutcome`. A non-string service ends the call after attach with an error. |
| UbuntuPro.AttachFailureHidesToken | cloudinit/config/cc_ubuntu_advantage.py:288-295 | Take a non-empty token that shares no character with `REDACTED`. A failed attach runs only the attach command and raises the fixed prefix plus an error detail that no longer contains the token. |
| UbuntuPro.EnableOutcomeOnReport | cloudinit/config/cc_ubuntu_advantage.py:301-358 | Given a parsed report, enabling succeeds iff every error is `service-already-enabled`. Otherwise the error names the reported services. |
| UbuntuPro.AttachWithToken | cloudinit/config/cc_ubuntu_advantage.py:405-417 | The call runs exactly `AttachRun`. A falsy or missing token raises `RuntimeError` and runs nothing. A truthy `enable_beta` that `", ".join` rejects raises that `TypeError` and runs nothing. A truthy string token with a joinable `enable_beta` runs `configure_ua` with the section's `enable`, starting with its attach command. Commands run only in that case. |
| UbuntuPro.JoinTypeError | cloudinit/config/cc_ubuntu_advantage.py:411-416 | `", ".join` succeeds exactly on a string, a dict or a list of strings. Anything else gives a `TypeError` text. |
| UbuntuPro.JoinTypeErrorNamesItem | cloudinit/config/cc_ubuntu_advantage.py:411-416 | For a list, the error names the index and the type of the first item that is not a string, as Python does. |
| UbuntuPro.DeprecatedOrder | cloudinit/config/cc_ubuntu_advantage.py:460 | The set's iteration order holds both deprecated keys, each once. |
| UbuntuPro.DeprecatedPresent | cloudinit/config/cc_ubuntu_advantage.py:460 | It lists exactly the deprecated keys present in the config, in the set's iteration order. |
| UbuntuPro.SelectRejectsTwoDeprecated | cloudinit/config/cc_ubuntu_advantage.py:460-466 | Both deprecated keys raise `RuntimeError` listing them in the set's iteration order, whatever else is configured. |
| UbuntuPro.DeprecatedOrderJoined | cloudinit/config/cc_ubuntu_advantage.py:463-466 | The message lists `ubuntu-advantage, ubuntu_advantage` or `ubuntu_advantage, ubuntu-advantage`, one for each iteration order. |
| UbuntuPro.SelectOrderIrrelevant | cloudinit/config/cc_ubuntu_advantage.py:460-480 | Unless both deprecated keys are present, the set's iteration order changes nothing. |
| UbuntuPro.SelectFallsBackToDeprecated | cloudinit/config/cc_ubuntu_advantage.py:461-472 | A single deprecated key without `ubuntu_pro` is used as the section. |
| UbuntuPro.SelectPrefersUbuntuPro | cloudinit/config/cc_ubuntu_advantage.py:473-480 | `ubuntu_pro` is used over a single deprecated key. |
| UbuntuPro.SelectSkipsWithoutSection | cloudinit/config/cc_ubuntu_advantage.py:481-486 | With no section key, the module does nothing. |
| UbuntuPro.CheckSectionRejects | cloudinit/config/cc_ubuntu_advantage.py:481-500 | Processing continues iff the section is a dict without `commands`. A `None` section skips. |
| UbuntuPro.DisableAutoAttachSkipsAuto | cloudinit/config/cc_ubuntu_advantage.py:377-382 | `disable_auto_attach: true` never auto-attaches. With only `features` configured, nothing is attached. |
| UbuntuPro.ApplySection | cloudinit/config/cc_ubuntu_advantage.py:502-524 | A failed install stops everything. After a successful install the `pro config` commands are `ConfigInvocations` of the section's `config`. The attach decision is reached iff install, `config` and `features` all pass, and it is what `ChooseAttach` picks. Auto-attach ends as its result; already attached is not an error. Token attach runs exactly `AttachRun`: without a token it raises and runs nothing. When it reaches `configure_ua`, its first command is the attach command. Attach commands come only from that path. |
| UbuntuPro.Handle | cloudinit/config/cc_ubuntu_advantage.py:458-524 | A skipped or rejected section runs nothing, and the rejection is raised. For an accepted section the outcome is as for `ApplySection`: install failure, the `ConfigInvocations` commands, the attach decision, and token attach running exactly `AttachRun`, with the missing-token error and the attach command as first call. Attach commands come only from token attach. |
| UsersGroups.Distro.CreateGroup | cloudinit/config/cc_users_groups.py:120 | The distro's record gains exactly this group, at the end. |
| UsersGroups.Distro.CreateUser | cloudinit/config/cc_users_groups.py:148 | The distro's record gains exactly this user and config, at the end. |
| UsersGroups.GroupCreations | cloudinit/config/cc_users_groups.py:119-120 | One group request per group entry, in order. |
| UsersGroups.KeyList | cloudinit/config/cc_users_groups.py:147 | The cloud keys as a Python list of strings, in order. |
| UsersGroups.RewriteUserConfig | cloudinit/config/cc_users_groups.py:122-147 | The loop body's result is `PrepareUser`, the definition of the rewritten config or error. |
| UsersGroups.CreateGroups | cloudinit/config/cc_users_groups.py:119-120 | The record grows by the group requests, in order. |
| UsersGroups.CreateUsers | cloudinit/config/cc_users_groups.py:121-148 | The record grows by the users the loop creates before its first error. The outcome is that error, if any. |
| UsersGroups.Handle | cloudinit/config/cc_users_groups.py:115-148 | All groups are created, then the users up to the first error, which is raised. A falsy public-key answer becomes `[]`. |
| UsersGroups.PrepareUserConflict | cloudinit/config/cc_users_groups.py:124-129 | A truthy redirect together with `ssh_authorized_keys` or `ssh_import_id` raises the conflict error. |
| UsersGroups.PrepareUserInvalid | cloudinit/config/cc_users_groups.py:130-135 | A truthy redirect other than `True` or `"default"`, and with no conflict, raises the invalid-value error carrying the value. |
| UsersGroups.PrepareUserErrorsNeedRedirect | cloudinit/config/cc_users_groups.py:122-135 | Every error comes from a truthy redirect and names the user. |
| UsersGroups.PrepareUserNoDefault | cloudinit/config/cc_users_groups.py:136-144 | With no conflicting keys and no default user, a user fails iff the redirect is truthy and not accepted. Otherwise the config is created minus the redirect key. |
| UsersGroups.PrepareUserWithDefault | cloudinit/config/cc_users_groups.py:145-147 | With a default user, an accepted redirect becomes that user's name and the cloud keys are added. Every other key keeps its value. |
| UsersGroups.PrepareUserRedirect | cloudinit/config/cc_users_groups.py:122-147 | A created config has no redirect, or has the default user as its redirect. |
| UsersGroups.UsersLoopCreates | cloudinit/config/cc_users_groups.py:121-148 | An accepted user is created right after the users before it. |
| UsersGroups.UsersLoopStops | cloudinit/config/cc_users_groups.py:121-135 | The first failing user ends the loop with its error, whatever follows. |
| UsersGroups.UsersLoopAllCreated | cloudinit/config/cc_users_groups.py:121-148 | Without an error, every user is created in order with its prepared config. |
| UsersGroups.UsersLoopStopsAtFirstError | cloudinit/config/cc_users_groups.py:121-148 | With an error, some user `k` fails with it. Exactly the users before `k` were created, without error. |
| UsersGroups.UsersLoopCreatedCount | cloudinit/config/cc_users_groups.py:121-148 | A failing loop creates fewer users than it was given. |
| UsersGroups.UsersLoopOnlyUsers | cloudinit/config/cc_users_groups.py:121-148 | The user loop requests only users. |
| UsersGroups.UsersLoopRedirects | cloudinit/config/cc_users_groups.py:121-148 | Every created user carries no redirect, or the default user. |
| UsersGroups.GroupsBeforeUsers | cloudinit/config/cc_users_groups.py:119-148 | Every group request comes before every user request. |
| PyValues.Get | cloudinit/config/cc_users_groups.py:124 | `d.get(k)` finds a value iff `k in d`, and the value is the one stored under `k`. |
| PyValues.Pop | cloudinit/config/cc_users_groups.py:122 | `config.pop` removes exactly the key. Other keys keep their values and order, and a missing key changes nothing. |
| PyValues.Put | cloudinit/config/cc_users_groups.py:146-147 | After `d[k] = v`, `k` maps to `v` and other keys are unchanged. A new key goes last. |
| PyValues.PutUnique | cloudinit/config/cc_users_groups.py:146-147 | Item assignment keeps a dict's keys unique. |
| PyValues.SortByKey | cloudinit/config/cc_ubuntu_advantage.py:194 | `sorted(d.items())` is a permutation of the entries with the same keys. |
| PyValues.SortByKeySorted | cloudinit/config/cc_ubuntu_advantage.py:194 | The result is in ascending key order, and a dict stays a dict. |
| PyValues.SortedUniqueIsStrict | cloudinit/config/cc_ubuntu_advantage.py:231 | Sorted entries with unique keys are in strictly ascending key order. |
| Text.StrLtIrreflexive | cloudinit/config/cc_ubuntu_advantage.py:194 | No string is below itself in Python's string order. |
| Text.StrLtTransitive | cloudinit/config/cc_ubuntu_advantage.py:194 | Python's string order is transitive. |
| Text.StrLtTotal | cloudinit/config/cc_ubuntu_advantage.py:194 | Any two distinct strings are ordered one way or the other, so sorting distinct keys has one outcome. |
| Text.ReplaceAbsent | cloudinit/config/cc_ubuntu_advantage.py:251 | `str.replace` of a pattern that does not occur changes nothing. |
| Text.InsertEverywhere | cloudinit/config/cc_ubuntu_advantage.py:251 | `s.replace("", rep)` inserts `rep` at all `len(s)+1` positions. This is what happens to an empty config value. |
| Text.ReplaceHidesSecret | cloudinit/config/cc_ubuntu_advantage.py:292 | When `REDACTED` shares no character with the token, the token no longer occurs after `replace`. |
| Text.UnescapeReEscape | cloudinit/config/cc_ubuntu_advantage.py:240-241 | `re.escape` loses nothing: reading its output back gives the input. |
| Text.Lower | tests/unittests/distros/test_init.py:105-125 | Lower-cases ASCII letters only and keeps every other character. Python's `str.lower` also lower-cases non-ASCII letters. |
| Text.JoinSplitOn | tests/unittests/distros/test_init.py:196-201 | Joining the labels of a split gives the hostname back. |
| Text.SplitOnJoin | tests/unittests/distros/test_init.py:196-201 | Splitting a join of dot-free labels gives the labels back. |
| Text.Strip | tests/unittests/distros/test_init.py:196-201 | The stripped label neither starts nor ends with the character. |
| Text.StripCharacterised | tests/unittests/distros/test_init.py:196-201 | Stripping keeps one contiguous slice of the label and removes only copies of the character before and after it. With `Strip`'s contract this fixes the result. |
| Text.StripIdempotent | tests/unittests/distros/test_init.py:196-201 | Stripping twice strips nothing more. |
| Text.StripOneEach | tests/unittests/distros/test_init.py:196-201 | One hyphen at either end, or both ends, is removed. |
| PackageMirrors.Substitutions | tests/unittests/distros/test_init.py:102-125 | Only `availability_zone`, `ec2_region` and `region` are ever offered. |
| PackageMirrors.Ec2RegionOffered | tests/unittests/distros/test_init.py:105-135 | `ec2_region` is offered iff the zone has the EC2 shape and either the platform is `ec2` or EC2 mirrors are allowed elsewhere. It is then the zone minus its last letter. |
| PackageMirrors.FormatPlain | tests/unittests/distros/test_init.py:105-125 | A template without `%` formats to itself. |
| PackageMirrors.FormatPlaceholder | tests/unittests/distros/test_init.py:105-125 | `%(key)s` is replaced by the key's value, and `KeyError` is raised when the key is not offered. |
| PackageMirrors.RemoveUnsafe | tests/unittests/distros/test_init.py:15-18 | `urlsplit` drops tab, CR and LF and keeps everything else. |
| PackageMirrors.UrlHostnamePlain | tests/unittests/distros/test_init.py:105-125 | Without a zone suffix, `hostname` is the host lower-cased. |
| Text.DecimalString | tests/unittests/distros/test_init.py:157-178 | A port is written as a non-empty string of digits. |
| Text.ParseDecimalString | tests/unittests/distros/test_init.py:157-178 | Reading the written port gives back its number. |
| PackageMirrors.IPv4DigitsAndDots | tests/unittests/distros/test_init.py:172-178 | An IPv4 address consists of digits and dots only. |
| PackageMirrors.NotIPWithLetter | tests/unittests/distros/test_init.py:172-185 | A host with a letter and no colon is not an IP address. |
| PackageMirrors.NamedHostNotIP | tests/unittests/distros/test_init.py:172-185 | A host with a letter that is not a hex digit is not an IP address. |
| PackageMirrors.ReplaceInvalid | tests/unittests/distros/test_init.py:203-214 | Each character outside letters, digits, `-` and `.` becomes `-`, and the length is kept. |
| PackageMirrors.StripLabelList | tests/unittests/distros/test_init.py:196-201 | Every label is stripped of hyphens, and the number of labels is kept. |
| PackageMirrors.StripLabelsClean | tests/unittests/distros/test_init.py:196-201 | Stripping the labels of a host-character string leaves a clean hostname. |
| PackageMirrors.SanitizeHostClean | tests/unittests/distros/test_init.py:196-214 | The new hostname only has LDH characters and dots, and no label begins or ends with `-`. |
| PackageMirrors.CleanHostFixed | tests/unittests/distros/test_init.py:105-125 | A clean hostname is left as it is. |
| PackageMirrors.SanitizeHostIdempotent | tests/unittests/distros/test_init.py:196-214 | Sanitising twice changes nothing more. |
| PackageMirrors.SplitWithNetloc | tests/unittests/distros/test_init.py:186-195 | `scheme://netloc/path` splits at the netloc. It is unparseable iff the netloc has exactly one kind of bracket. |
| PackageMirrors.ParseHostInfoPlain | tests/unittests/distros/test_init.py:157-178 | `host[:port]` parses into the host and the port text. |
| PackageMirrors.ParseHostInfoBracketed | tests/unittests/distros/test_init.py:179-185 | `[addr]` parses into the address between the brackets. |
| PackageMirrors.PortSuffixOfText | tests/unittests/distros/test_init.py:157-178 | A port in range is written back exactly as it was. |
| PackageMirrors.SanitizeDrops | tests/unittests/distros/test_init.py:186-195 | A URL is dropped iff its netloc has a lone bracket, or a named host has a port that does not read as a number in range. |
| PackageMirrors.SanitizePlainUrl | tests/unittests/distros/test_init.py:105-214 | Take `scheme://host[:port]/path`. IP and empty hostnames are kept verbatim. Otherwise the scheme is lower-cased, the hostname is replaced by its sanitised form, and the port and path are kept. |
| PackageMirrors.SanitizeIPUrl | tests/unittests/distros/test_init.py:172-178 | An IP-address host is kept, port included. |
| PackageMirrors.SanitizeBracketedUrl | tests/unittests/distros/test_init.py:179-185 | A bracketed IP-address netloc is kept. |
| PackageMirrors.SanitizeUnbalancedUrl | tests/unittests/distros/test_init.py:186-195 | A lone bracket in the netloc drops the URL. |
| PackageMirrors.SanitizeLabels | tests/unittests/distros/test_init.py:196-201 | Sanitising labels of host characters strips each label. |
| PackageMirrors.SanitizeNamedUrl | tests/unittests/distros/test_init.py:105-125 | A lettered host that lower-cases to a clean name comes back lower-cased, with everything else as it was. |
| PackageMirrors.SanitizeIdnaUrl | tests/unittests/distros/test_init.py:149-164 | A non-ASCII named host is replaced by the IDNA encoding of its lower-cased hostname, when that encoding is clean. The port and path are kept. |
| PackageMirrors.Expand | tests/unittests/distros/test_init.py:136-148 | Each template contributes its filled and sanitised URL, or nothing, in template order. |
| PackageMirrors.CollectDefined | tests/unittests/distros/test_init.py:237-242 | The template loop completes iff no template raises. |
| PackageMirrors.CollectInOrder | tests/unittests/distros/test_init.py:136-148 | When every template gives a URL, the URLs come out in template order. |
| PackageMirrors.CandidatesDefined | tests/unittests/distros/test_init.py:237-242 | Candidates exist iff no template has a formatting error. |
| PackageMirrors.CandidatesInOrder | tests/unittests/distros/test_init.py:136-148 | Candidate `i` comes from template `i` when every template yields a URL. |
| PackageMirrors.CopyFailsafeExact | tests/unittests/distros/test_init.py:47-56 | Copying the failsafe mapping entry by entry gives it back exactly. |
| PackageMirrors.ResolveEmpty | tests/unittests/distros/test_init.py:45-46 | Empty mirror info gives an empty result. |
| PackageMirrors.ResolveFailsafeOnly | tests/unittests/distros/test_init.py:47-56 | With only `failsafe`, the result is that mapping. |
| PackageMirrors.SearchStepEffect | tests/unittests/distros/test_init.py:57-74 | A search step sets its key to the key's outcome and leaves other keys alone. |
| PackageMirrors.SearchStepDefined | tests/unittests/distros/test_init.py:237-242 | A search step fails iff one of its templates has a formatting error. |
| PackageMirrors.SearchResultsDefined | tests/unittests/distros/test_init.py:57-66 | The search loop completes when no template has a formatting error. |
| PackageMirrors.SearchResultsNeedsFormat | tests/unittests/distros/test_init.py:237-242 | A completed search loop had no formatting error in any list. |
| PackageMirrors.SearchResultsUnsearched | tests/unittests/distros/test_init.py:67-74 | A key that is not searched keeps what it had. |
| PackageMirrors.SearchResultsSearched | tests/unittests/distros/test_init.py:57-66 | A searched key ends with its outcome, computed from its value before the loop. |
| PackageMirrors.ResolveSearchedKey | tests/unittests/distros/test_init.py:57-97 | Each searched key gets its filtered list when truthy. Otherwise it gets its failsafe value verbatim, or no entry. |
| PackageMirrors.ResolveUnsearchedKey | tests/unittests/distros/test_init.py:67-74 | A key without a search list gets its failsafe value, or no entry. |
| PackageMirrors.FilterEliminatesAll | tests/unittests/distros/test_init.py:89-97 | When the filter rejects everything, each key keeps its failsafe value. |
| PackageMirrors.ResolveSucceeds | tests/unittests/distros/test_init.py:237-242 | Resolution returns iff no template has a formatting error. |
| MirrorExamples.InvalidUrlChars | tests/unittests/distros/test_init.py:21-30 | The list holds exactly the code points below 127 that are not LDH, not tab/CR/LF and not a separator. They are in strictly ascending order. |
| MirrorExamples.TestFailsafeValuesUsed | tests/unittests/distros/test_init.py:47-56 | `failsafe` alone gives `{"primary": "http://value", "security": "http://other"}`. |
| MirrorExamples.SearchValuesUsed | tests/unittests/distros/test_init.py:57-66 | Two searched keys with lower-case names each get their one-URL list. |
| MirrorExamples.TestSearchValuesUsed | tests/unittests/distros/test_init.py:57-66 | The same, for the test's `http://value` and `http://other`. |
| MirrorExamples.FailsafeForUnsearchedKey | tests/unittests/distros/test_init.py:67-74 | An unsearched key takes its failsafe value, and the searched key takes its list. |
| MirrorExamples.TestFailsafeForUnsearchedKey | tests/unittests/distros/test_init.py:67-74 | The same, for the test's values. |
| MirrorExamples.FailsafeWhenAllFiltered | tests/unittests/distros/test_init.py:89-97 | A filter rejecting all candidates leaves the failsafe value. |
| MirrorExamples.TestFailsafeWhenAllFiltered | tests/unittests/distros/test_init.py:89-97 | The same, for the test's values. |
| MirrorExamples.PlaceholderHostTemplate | tests/unittests/distros/test_init.py:105-125 | A template whose host is a lettered prefix plus a lower-case label tail gives the URL with the prefix lower-cased. |
| MirrorExamples.MissingKeySkipped | tests/unittests/distros/test_init.py:126-135 | A template naming a value that is not offered contributes nothing. |
| MirrorExamples.OnlyPrimary | tests/unittests/distros/test_init.py:235-249 | With only `primary` searched and the identity filter, the result is `{"primary": candidates}`. |
| MirrorExamples.Ec2ZoneShape | tests/unittests/distros/test_init.py:105-111 | An EC2-shaped zone and its region are lower-case labels. |
| MirrorExamples.Ec2RegionAlone | tests/unittests/distros/test_init.py:105-111 | Any EC2-shaped zone gives `http://ec2-<zone minus letter>/ubuntu`. |
| MirrorExamples.AvailabilityZoneAlone | tests/unittests/distros/test_init.py:112-118 | The zone fills `%(availability_zone)s` whole, and the host is lower-cased. |
| MirrorExamples.RegionAlone | tests/unittests/distros/test_init.py:119-125 | The region fills `%(region)s` whole. |
| MirrorExamples.Ec2NeedsEc2Zone | tests/unittests/distros/test_init.py:126-135 | A zone without the EC2 shape skips the `ec2_region` template and keeps the zone one. |
| MirrorExamples.TemplateOrderKept | tests/unittests/distros/test_init.py:136-148 | The `-2` mirror stays ahead of the `-1` mirror. |
| MirrorExamples.TestUnicodeRegion | tests/unittests/distros/test_init.py:149-156 | The test's region `ТεЅТ̣` is a non-ASCII label. |
| MirrorExamples.TestEc2Zone | tests/unittests/distros/test_init.py:105-118 | The test's zone `fk-fake-1f` is EC2-shaped and a label; its region is `fk-fake-1`. |
| MirrorExamples.TestNonEc2Zone | tests/unittests/distros/test_init.py:126-135 | The test's zone `fake-fake-1f` is a label but not EC2-shaped. |
| MirrorExamples.TestRegionLabels | tests/unittests/distros/test_init.py:119-148 | The test's regions `fk-fake-1` and `fake-region` are labels. |
| MirrorExamples.TestUnparseableRegion | tests/unittests/distros/test_init.py:186-195 | The test's region `inv[lid` has one lone bracket and no character `urlsplit` strips or splits on. |
| MirrorExamples.IdnaHostEncoded | tests/unittests/distros/test_init.py:149-156 | For a non-ASCII label region, the URL's host is the IDNA encoding of `www.idna-<region>.com`. |
| MirrorExamples.TestIdnaEncodingClean | tests/unittests/distros/test_init.py:149-156 | The expected encoding `www.xn--idna--4kd53hh6aba3q.com` is a clean hostname, so it meets the condition above. |
| MirrorExamples.IdnaHostWithPort | tests/unittests/distros/test_init.py:157-164 | The same with `:8080`, which is kept. |
| MirrorExamples.NonAsciiPathKept | tests/unittests/distros/test_init.py:165-171 | A region substituted into the path is kept verbatim, non-ASCII included. |
| MirrorExamples.IPv4Kept | tests/unittests/distros/test_init.py:172-178 | `http://192.168.1.1:8080/<region>/ubuntu` is kept as it is. |
| MirrorExamples.IPv6Kept | tests/unittests/distros/test_init.py:179-185 | `http://[2001:67c:1360:8001::23]/<region>/ubuntu` is kept as it is. |
| MirrorExamples.UnparseableFiltered | tests/unittests/distros/test_init.py:186-195 | A region with a lone bracket drops the hostname template and keeps the path template. |
| MirrorExamples.HyphenSanitized | tests/unittests/distros/test_init.py:196-201 | The host `-lead-ing.<r>.trail-ing-.example.com` sanitises with every label stripped. |
| MirrorExamples.HyphensStripped | tests/unittests/distros/test_init.py:196-201 | The resulting URL is `http://lead-ing.<r stripped>.trail-ing.example.com/ubuntu`. |
| MirrorExamples.SomeRegionStripped | tests/unittests/distros/test_init.py:196-201 | `-some-region-` strips to `some-region`. |
| MirrorExamples.InvalidCharSanitized | tests/unittests/distros/test_init.py:203-214 | `fk<c>fake<c>1` sanitises to `fk-fake-1` for every listed character `c`. |
| MirrorExamples.InvalidCharReplaced | tests/unittests/distros/test_init.py:203-214 | For every listed character `c`, the template gives `http://fk-fake-1/ubuntu`. |

## Left out

- Logging: `LOG.*` and `util.logexc` calls are not modelled. The warnings for deprecated keys and unknown config keys only log. The debug message about an ignored `enable_beta` is not modelled, but the `", ".join(enable_beta)` it evaluates is, because that join can raise `TypeError` (`JoinTypeError`). `ReportEnableErrors` computes the enable-error messages but does not emit them.
- `maybe_install_ua_tools` (`subp.which`, package installation): only its outcome is modelled, as `ProEnv.installTools`.
- `_should_auto_attach` and `_auto_attach`: the uaclient APIs are external. They enter as the answer `ProEnv.shouldAutoAttach` and the result `ProEnv.autoAttach`. The model keeps the decision and how the result is turned into an outcome.
- `subp.subp`, `urlparse`, `json.loads`: these are oracles on `ProEnv`. The JSON report is taken as parsed `EnableErrorEntry` records. A report entry missing `message_code` (a `KeyError` in the source) is not modelled.
- `UbuntuPro.AttachWithToken` and `UbuntuPro.AttachRun`: a truthy non-string token (with a joinable `enable_beta`) is modelled as a `TypeError` before any command runs. In the source, attach would run and fail later, inside `subp.subp` or `str.replace`.
- `UbuntuPro.ConfigureUa` and `UbuntuPro.ConfigureUaRun`: an `enable` list holding a non-string item is handed to `subp.subp`, which is not part of this model. The model ends the call right after attach with a `TypeError` whose text is a placeholder, and it does not record the `pro enable` command, because recorded commands are lists of strings. Which exception the source raises there, and whether the command starts, is not promised.
- `SetUaConfig`: `sorted(ua_config.items())` needs only the keys, because keys are unique. Non-string keys are not modelled.
- `ug_util.normalize_users_groups` and `extract_default` are not part of this model. `UsersGroups.Handle` receives their results.
- `UsersGroups.UserError`: the two `ValueError` cases carry the user and, for an invalid redirect, the value. The message text is not built, because it renders the value with Python's `str()`.
- `cloud.distro.create_group` and `create_user`: only the request is recorded, in `Distro.created`.
- `_get_package_mirror_info` and `_sanitize_mirror_url` in `cloudinit/distros/__init__.py` are not part of this model. `PackageMirrors` defines the behaviour that the tests in `tests/unittests/distros/test_init.py` fix.
- `Text.Lower`: `str.lower` is modelled on ASCII letters only, while Python also lower-cases non-ASCII letters (the test host with `ТεЅТ̣` becomes `тεѕт̣`). The gap shows in `PackageMirrors.UrlHostname`: a non-ASCII host reaches the `idna` oracle not lower-cased, so in `MirrorExamples.IdnaHostEncoded` and `MirrorExamples.IdnaHostWithPort` the oracle's answer is taken for a string that Python never passes to it.
- `PackageMirrors.SanitizeHost`: IDNA encoding is an oracle parameter (`idna`). The test's encoding is taken as the oracle's answer in `IdnaHostEncoded` and `IdnaHostWithPort`.
- `PackageMirrors.IsIPAddress`: IPv4 is modelled digit by digit. IPv6 is approximated by its character shape (hex digits, dots, at least two colons). `ipaddress`'s full IPv6 grammar is not modelled.
- `PackageMirrors.ParseHostInfo`: the userinfo (`user@`) is kept and rebuilt as it was. IPv6 zone suffixes (`%…`) and the `[`/`]` validity checks beyond a lone bracket are not modelled.
- `PackageMirrors.SanitizeMirrorUrl`: a port that `urlsplit` cannot read back drops the URL (`None`).
- `PackageMirrors.IsEc2Zone`: the regular expression is written out as a predicate. Python's `$` also matches just before one trailing newline, so `re.match` with this pattern accepts a zone such as `fk-fake-1f` followed by a newline. The model rejects such a zone and offers no `ec2_region` for it.
- `PackageMirrors.DataSource`: a missing or `None` data-source attribute is the empty string. `data_source=None` is `None`, which offers no substitutions.
- `PackageMirrors.Format` models only the `%(key)s` and `%%` conversions, which are all the templates use. Any other conversion is a formatting error. The key of `%(key)s` ends at the first `)`; Python's mapping lookup counts nested parentheses, so a key such as `a(b)` is not modelled.
- `MirrorExamples`: each test case is proved for the test's template, generalised over the region or zone wherever the case allows. The concrete data is proved separately where it matters (`TestUnicodeRegion`, `TestIdnaEncodingClean`, `SomeRegionStripped`, the `Test…` failsafe lemmas).
- Result order: Python compares the result dicts without regard to order, but the model's dicts keep insertion order, so each lemma states the order the loop produces. In the failsafe-plus-search case that puts `security` before `primary`.
- The install-package tests and the rest of `tests/unittests/distros/test_init.py` are out of scope.
