/**
 * Package-mirror resolution (`_get_package_mirror_info` in
 * `cloudinit/distros`), as its tests in `tests/unittests/distros/test_init.py`
 * pin it down: every mirror key takes the filtered list of its `search`
 * templates if that is truthy, else its `failsafe` value; templates are
 * filled in from the data source (`region`, `availability_zone`, and
 * `ec2_region` for EC2-shaped zones) and the hostname of each resulting URL
 * is made DNS-safe.
 *
 * The mirror filter and IDNA encoding are parameters.
 */
module PackageMirrors {
  import opened Wrappers
  import opened Text
  import opened PyValues

  /** The data-source attributes the resolution reads; `""` stands for a missing or empty value. */
  datatype DataSource = DataSource(availabilityZone: string, region: string, platformType: string)

  /** The `search` and `failsafe` mappings of the mirror info; a missing one is empty. */
  datatype MirrorInfo = MirrorInfo(failsafe: Dict, search: seq<(string, seq<string>)>)

  // ===========================================================================
  // Substitution values

  predicate IsEc2MiddlePart(m: string)
  {
    |m| >= 2 && IsAsciiLower(m[0]) && m[|m| - 1] == '-'
    && (forall i :: 0 <= i < |m| ==> IsAsciiLower(m[i]) || m[i] == '-')
    && (forall i :: 0 <= i < |m| - 1 ==> m[i] == '-' ==> m[i + 1] != '-')
  }

  /**
   * `^[a-z][a-z]-(?:[a-z]+-)+[0-9][a-z]$`: two letters, a hyphen, one or more
   * letter groups each followed by a hyphen, a digit and the zone letter.
   */
  predicate IsEc2Zone(az: string)
  {
    |az| >= 7 && IsAsciiLower(az[0]) && IsAsciiLower(az[1]) && az[2] == '-'
    && IsEc2MiddlePart(az[3..|az| - 2])
    && IsAsciiDigit(az[|az| - 2]) && IsAsciiLower(az[|az| - 1])
  }

  /** The values the templates are filled from. */
  function Substitutions(ds: Option<DataSource>, allowEc2OnNonAws: bool): (subst: map<string, string>)
    ensures subst.Keys <= {"availability_zone", "ec2_region", "region"}
  {
    match ds
    case None => map[]
    case Some(d) =>
      var zone := if d.availabilityZone != "" then map["availability_zone" := d.availabilityZone] else map[];
      var ec2 :=
        if d.availabilityZone != "" && IsEc2Zone(d.availabilityZone) && (allowEc2OnNonAws || d.platformType == "ec2")
        then zone["ec2_region" := d.availabilityZone[..|d.availabilityZone| - 1]]
        else zone;
      if d.region != "" then ec2["region" := d.region] else ec2
  }

  /**
   * `ec2_region` is offered exactly for an EC2-shaped zone on EC2 (or when
   * EC2 mirrors are allowed elsewhere), and is the zone minus its letter.
   */
  lemma Ec2RegionOffered(d: DataSource, allow: bool)
    ensures "ec2_region" in Substitutions(Some(d), allow) <==>
      IsEc2Zone(d.availabilityZone) && (allow || d.platformType == "ec2")
    ensures "ec2_region" in Substitutions(Some(d), allow) ==>
      Substitutions(Some(d), allow)["ec2_region"] + [d.availabilityZone[|d.availabilityZone| - 1]] == d.availabilityZone
  {
    var az := d.availabilityZone;
    if "ec2_region" in Substitutions(Some(d), allow) {
      assert az[..|az| - 1] + [az[|az| - 1]] == az;
    }
  }

  // ===========================================================================
  // `template % subst`

  /** The result of Python's `%` formatting with a mapping. */
  datatype Formatted = Text(text: string) | MissingKey(key: string) | BadFormat

  function PrependChars(prefix: string, f: Formatted): Formatted
  {
    match f
    case Text(t) => Text(prefix + t)
    case _ => f
  }

  /**
   * `tmpl % subst`, for the conversions `%(key)s` and `%%`. A missing key
   * raises `KeyError` (reported as `MissingKey`); any other use of `%` is a
   * formatting error.
   */
  function Format(tmpl: string, subst: map<string, string>): Formatted
    decreases |tmpl|
  {
    if tmpl == [] then Text([])
    else if tmpl[0] != '%' then PrependChars([tmpl[0]], Format(tmpl[1..], subst))
    else if |tmpl| >= 2 && tmpl[1] == '%' then PrependChars("%", Format(tmpl[2..], subst))
    else if |tmpl| >= 2 && tmpl[1] == '(' then
      var body := tmpl[2..];
      var close := FirstIndexOf(body, {')'});
      if close == |body| then BadFormat
      else
        var key := body[..close];
        var after := body[close + 1..];
        if after == [] || after[0] != 's' then BadFormat
        else if key !in subst then MissingKey(key)
        else PrependChars(subst[key], Format(after[1..], subst))
    else BadFormat
  }

  /** A template without `%` is its own result. */
  lemma {:induction false} FormatPlain(tmpl: string, subst: map<string, string>)
    requires '%' !in tmpl
    ensures Format(tmpl, subst) == Text(tmpl)
  {
    if tmpl != [] {
      FormatPlain(tmpl[1..], subst);
      assert tmpl == [tmpl[0]] + tmpl[1..];
    }
  }

  /** Formatting distributes over a `%`-free prefix. */
  lemma {:induction false} FormatAfterPlain(prefix: string, rest: string, subst: map<string, string>)
    requires '%' !in prefix
    ensures Format(prefix + rest, subst) == PrependChars(prefix, Format(rest, subst))
  {
    if prefix == [] {
      assert prefix + rest == rest;
      match Format(rest, subst) {
        case Text(t) => assert [] + t == t;
        case _ =>
      }
    } else {
      assert (prefix + rest)[1..] == prefix[1..] + rest;
      FormatAfterPlain(prefix[1..], rest, subst);
      match Format(rest, subst) {
        case Text(t) => assert [prefix[0]] + (prefix[1..] + t) == prefix + t;
        case _ =>
      }
    }
  }

  /**
   * A placeholder fills in its value: `prefix %(key)s suffix` becomes
   * `prefix value suffix` when the key is offered and is reported missing
   * otherwise, so a template naming an unavailable value is dropped.
   */
  lemma FormatPlaceholder(prefix: string, key: string, suffix: string, subst: map<string, string>)
    requires '%' !in prefix && ')' !in key && '%' !in suffix
    ensures var tmpl := prefix + "%(" + key + ")s" + suffix;
      Format(tmpl, subst) == if key in subst then Text(prefix + subst[key] + suffix) else MissingKey(key)
  {
    var tail := "%(" + key + ")s" + suffix;
    assert prefix + "%(" + key + ")s" + suffix == prefix + tail;
    FormatAfterPlain(prefix, tail, subst);
    FormatLeadingPlaceholder(key, suffix, subst);
    if key in subst {
      assert prefix + (subst[key] + suffix) == prefix + subst[key] + suffix;
    }
  }

  /** A template that starts with a placeholder. */
  lemma FormatLeadingPlaceholder(key: string, suffix: string, subst: map<string, string>)
    requires ')' !in key && '%' !in suffix
    ensures Format("%(" + key + ")s" + suffix, subst) == if key in subst then Text(subst[key] + suffix) else MissingKey(key)
  {
    var tail := "%(" + key + ")s" + suffix;
    var body := tail[2..];
    assert tail[0] == '%' && tail[1] == '(';
    assert body == key + [')'] + ("s" + suffix);
    FirstSeparatorAfter(key, ')', "s" + suffix);
    assert body[..|key|] == key;
    assert body[|key| + 1..] == "s" + suffix;
    assert ("s" + suffix)[1..] == suffix;
    FormatPlain(suffix, subst);
  }

  // ===========================================================================
  // URL parsing (`urllib.parse.urlsplit`) and hostname sanitising

  /** `urlsplit` removes tab, CR and LF anywhere in the URL (bpo-43882). */
  function RemoveUnsafe(url: string): (r: string)
    ensures forall c :: c in r ==> c in url && c !in UNSAFE
  {
    if url == [] then []
    else (if url[0] in UNSAFE then [] else [url[0]]) + RemoveUnsafe(url[1..])
  }

  predicate IsSchemeChar(c: char)
  {
    IsAsciiLetter(c) || IsAsciiDigit(c) || c == '+' || c == '-' || c == '.'
  }

  /** Where a URL is split into scheme, network location and the rest. */
  datatype SplitUrl = Unparseable | NoNetloc | Parts(scheme: string, netloc: string, rest: string)

  /** The index of the colon ending a valid scheme, if the URL starts with one. */
  function SchemeEnd(url: string): (r: Option<nat>)
    ensures r.Some? ==> (0 < r.value < |url| && url[r.value] == ':'
      && IsAsciiLetter(url[0]) && forall j :: 0 <= j < r.value ==> IsSchemeChar(url[j]))
  {
    var i := FirstIndexOf(url, {':'});
    if 0 < i < |url| && IsAsciiLetter(url[0]) && (forall j :: 0 <= j < i ==> IsSchemeChar(url[j])) then Some(i)
    else None
  }

  /** `urlsplit(url)`: `Unparseable` where it raises `ValueError` for a lone bracket in the netloc. */
  function Split(url: string): SplitUrl
  {
    match SchemeEnd(url)
    case Some(i) => SplitNetloc(Lower(url[..i]), url[i + 1..])
    case None => SplitNetloc("", url)
  }

  /** The netloc follows `//` and runs up to the first `/`, `?` or `#`. */
  function SplitNetloc(scheme: string, after: string): SplitUrl
  {
    if |after| >= 2 && after[..2] == "//" then
      var tail := after[2..];
      var n := FirstIndexOf(tail, {'/', '?', '#'});
      var netloc := tail[..n];
      if ('[' in netloc) != (']' in netloc) then Unparseable
      else Parts(scheme, netloc, tail[n..])
    else NoNetloc
  }

  /** The pieces of a netloc: `userinfo@`, the host, whether it was bracketed, and the port text. */
  datatype HostInfo = HostInfo(userinfo: string, host: string, bracketed: bool, port: Option<string>)

  /** `SplitResult._hostinfo`, keeping the userinfo as well. */
  function ParseHostInfo(netloc: string): HostInfo
  {
    var userinfo := match LastIndexOf(netloc, '@') case Some(i) => netloc[..i + 1] case None => "";
    ParseHostPort(userinfo, netloc[|userinfo|..])
  }

  /** The host and port after the userinfo; a bracketed host runs up to `]`. */
  function ParseHostPort(userinfo: string, hostinfo: string): HostInfo
  {
    var open := FirstIndexOf(hostinfo, {'['});
    if open < |hostinfo| then
      var bracketed := hostinfo[open + 1..];
      var close := FirstIndexOf(bracketed, {']'});
      var afterClose := if close < |bracketed| then bracketed[close + 1..] else "";
      var colon := FirstIndexOf(afterClose, {':'});
      var port := if colon < |afterClose| then afterClose[colon + 1..] else "";
      HostInfo(userinfo, bracketed[..close], true, if port == "" then None else Some(port))
    else
      var colon := FirstIndexOf(hostinfo, {':'});
      var port := if colon < |hostinfo| then hostinfo[colon + 1..] else "";
      HostInfo(userinfo, hostinfo[..colon], false, if port == "" then None else Some(port))
  }

  /** `SplitResult.hostname`: lower-cased up to a `%` zone suffix; empty means `None`. */
  function UrlHostname(host: string): string
  {
    var pct := FirstIndexOf(host, {'%'});
    Lower(host[..pct]) + host[pct..]
  }

  /** Without a zone suffix the hostname is the lower-cased host. */
  lemma UrlHostnamePlain(host: string)
    requires '%' !in host
    ensures UrlHostname(host) == Lower(host)
  {
    FirstIndexOfAt(host, {'%'}, []);
    assert host + [] == host;
  }

  /** An IPv4 octet as `ipaddress` accepts it: 1 to 3 digits, no leading zero, at most 255. */
  predicate IsIPv4Octet(s: string)
  {
    IsDecimalDigits(s) && |s| <= 3 && (|s| == 1 || s[0] != '0') && ParseDecimal(s) <= 255
  }

  predicate IsIPv4(h: string)
  {
    var parts := SplitOn(h, '.');
    |parts| == 4 && forall i :: 0 <= i < 4 ==> IsIPv4Octet(parts[i])
  }

  predicate IsHexDigit(c: char)
  {
    IsAsciiDigit(c) || ('a' <= c <= 'f') || ('A' <= c <= 'F')
  }

  /** The character shape of an IPv6 literal: hex digits, colons (at least two) and dots. */
  predicate IsIPv6(h: string)
  {
    (exists i, j :: 0 <= i < j < |h| && h[i] == ':' && h[j] == ':')
    && forall i :: 0 <= i < |h| ==> IsHexDigit(h[i]) || h[i] == ':' || h[i] == '.'
  }

  /** `ipaddress.ip_address(hostname)` succeeds. */
  predicate IsIPAddress(h: string)
  {
    IsIPv4(h) || IsIPv6(h)
  }

  /** Every character is a digit or a dot. */
  predicate DigitsAndDots(s: string)
  {
    forall c :: c in s ==> IsAsciiDigit(c) || c == '.'
  }

  lemma {:induction false} JoinDigitsAndDots(parts: seq<string>)
    requires forall i :: 0 <= i < |parts| ==> DigitsAndDots(parts[i])
    ensures DigitsAndDots(Join(".", parts))
  {
    if |parts| > 1 {
      JoinDigitsAndDots(parts[1..]);
      assert Join(".", parts) == parts[0] + "." + Join(".", parts[1..]);
    }
  }

  /** An IPv4 address is written with digits and dots only. */
  lemma IPv4DigitsAndDots(h: string)
    requires IsIPv4(h)
    ensures DigitsAndDots(h)
  {
    var parts := SplitOn(h, '.');
    forall i | 0 <= i < |parts| ensures DigitsAndDots(parts[i]) {
      assert IsIPv4Octet(parts[i]);
      forall c | c in parts[i] ensures IsAsciiDigit(c) {
        var j :| 0 <= j < |parts[i]| && parts[i][j] == c;
      }
    }
    JoinDigitsAndDots(parts);
    JoinSplitOn(h, '.');
  }

  /** A hostname with a letter after `f` is a name, not an IP address. */
  lemma NamedHostNotIP(h: string, k: nat)
    requires k < |h| && IsAsciiLetter(h[k]) && !IsHexDigit(h[k])
    ensures !IsIPAddress(h)
  {
    if IsIPv4(h) {
      IPv4DigitsAndDots(h);
    }
  }

  predicate AllAscii(s: string)
  {
    forall i :: 0 <= i < |s| ==> IsAscii(s[i])
  }

  /** A character allowed in a sanitised hostname: letters, digits, hyphen, and the label separator. */
  predicate IsHostChar(c: char)
  {
    IsLdh(c) || c == '.'
  }

  /** Every character that is not allowed becomes a hyphen. */
  function ReplaceInvalid(h: string): (r: string)
    ensures |r| == |h|
    ensures forall i :: 0 <= i < |h| ==> r[i] == if IsHostChar(h[i]) then h[i] else '-'
  {
    if h == [] then [] else [if IsHostChar(h[0]) then h[0] else '-'] + ReplaceInvalid(h[1..])
  }

  function StripLabelList(labels: seq<string>): (r: seq<string>)
    ensures |r| == |labels|
    ensures forall i :: 0 <= i < |labels| ==> r[i] == Strip(labels[i], '-')
  {
    seq(|labels|, i requires 0 <= i < |labels| => Strip(labels[i], '-'))
  }

  /** Leading and trailing hyphens are removed from every label. */
  function StripLabels(h: string): string
  {
    Join(".", StripLabelList(SplitOn(h, '.')))
  }

  /**
   * The new hostname: IDNA-encoded when it has non-ASCII characters, then
   * characters outside LDH and `.` replaced by `-`, then every label stripped
   * of leading and trailing hyphens.
   */
  function SanitizeHost(h: string, idna: string -> string): string
  {
    StripLabels(ReplaceInvalid(if AllAscii(h) then h else idna(h)))
  }

  /** Every character is allowed in a hostname. */
  predicate HostChars(s: string)
  {
    forall c :: c in s ==> IsHostChar(c)
  }

  /** The shape of a sanitised hostname. */
  predicate IsCleanHost(h: string)
  {
    HostChars(h) && forall l :: l in SplitOn(h, '.') ==> l == [] || (l[0] != '-' && l[|l| - 1] != '-')
  }

  lemma {:induction false} JoinHostChars(parts: seq<string>)
    requires forall i :: 0 <= i < |parts| ==> HostChars(parts[i])
    ensures HostChars(Join(".", parts))
  {
    if |parts| > 1 {
      JoinHostChars(parts[1..]);
      assert Join(".", parts) == parts[0] + "." + Join(".", parts[1..]);
    }
  }

  lemma {:induction false} SplitOnHostChars(s: string)
    requires HostChars(s)
    ensures forall i :: 0 <= i < |SplitOn(s, '.')| ==> HostChars(SplitOn(s, '.')[i])
    decreases |s|
  {
    var i := FirstIndexOf(s, {'.'});
    if i < |s| {
      forall c | c in s[..i] ensures IsHostChar(c) {
        var j :| 0 <= j < i && s[..i][j] == c;
        assert s[j] in s;
      }
      forall c | c in s[i + 1..] ensures IsHostChar(c) {
        var j :| 0 <= j < |s| - i - 1 && s[i + 1..][j] == c;
        assert s[i + 1 + j] in s;
      }
      SplitOnHostChars(s[i + 1..]);
    }
  }

  /** Stripped labels of host characters are host characters without dots. */
  lemma StripLabelListChars(labels: seq<string>)
    requires forall i :: 0 <= i < |labels| ==> HostChars(labels[i]) && '.' !in labels[i]
    ensures forall i :: 0 <= i < |labels| ==> HostChars(StripLabelList(labels)[i]) && '.' !in StripLabelList(labels)[i]
  {
    var stripped := StripLabelList(labels);
    forall i | 0 <= i < |stripped| ensures HostChars(stripped[i]) && '.' !in stripped[i] {
      StripSubset(labels[i], '-');
    }
  }

  /** Stripping the labels of a string of host characters leaves a clean hostname. */
  lemma StripLabelsClean(h: string)
    requires HostChars(h)
    ensures IsCleanHost(StripLabels(h))
  {
    var labels := SplitOn(h, '.');
    SplitOnHostChars(h);
    var stripped := StripLabelList(labels);
    StripLabelListChars(labels);
    JoinHostChars(stripped);
    SplitOnJoin(stripped, '.');
    var r := StripLabels(h);
    assert SplitOn(r, '.') == stripped;
    forall l | l in SplitOn(r, '.') ensures l == [] || (l[0] != '-' && l[|l| - 1] != '-') {
      var k :| 0 <= k < |stripped| && stripped[k] == l;
      assert l == Strip(labels[k], '-');
    }
  }

  /** A sanitised hostname only has LDH characters and dots, and no label starts or ends with a hyphen. */
  lemma SanitizeHostClean(h: string, idna: string -> string)
    ensures IsCleanHost(SanitizeHost(h, idna))
  {
    var t := ReplaceInvalid(if AllAscii(h) then h else idna(h));
    forall c | c in t ensures IsHostChar(c) {
      var j :| 0 <= j < |t| && t[j] == c;
    }
    StripLabelsClean(t);
  }

  /** A clean hostname is left as it is. */
  lemma CleanHostFixed(h: string, idna: string -> string)
    requires IsCleanHost(h)
    ensures SanitizeHost(h, idna) == h
  {
    HostCharsFixed(h);
    var labels := SplitOn(h, '.');
    forall i | 0 <= i < |labels| ensures Strip(labels[i], '-') == labels[i] {
      assert labels[i] in labels;
      StripNoop(labels[i], '-');
    }
    assert StripLabelList(labels) == labels;
    JoinSplitOn(h, '.');
    assert StripLabels(h) == Join(".", labels);
  }

  /** Sanitising is idempotent. */
  lemma SanitizeHostIdempotent(h: string, idna: string -> string)
    ensures SanitizeHost(SanitizeHost(h, idna), idna) == SanitizeHost(h, idna)
  {
    SanitizeHostClean(h, idna);
    CleanHostFixed(SanitizeHost(h, idna), idna);
  }

  /** What `urlunsplit` does with the part after the netloc: empty query and fragment markers are dropped. */
  function NormalizeRest(rest: string): string
  {
    var hash := FirstIndexOf(rest, {'#'});
    var beforeHash := rest[..hash];
    var fragment := if hash < |rest| then rest[hash + 1..] else "";
    var q := FirstIndexOf(beforeHash, {'?'});
    var path := beforeHash[..q];
    var query := if q < |beforeHash| then beforeHash[q + 1..] else "";
    path + (if query != "" then "?" + query else "") + (if fragment != "" then "#" + fragment else "")
  }

  /** The port's value, or `None` when the port text is not a number in range (a `ValueError`). */
  function PortValue(port: string): Option<nat>
  {
    if IsDecimalDigits(port) && ParseDecimal(port) <= 65535 then Some(ParseDecimal(port)) else None
  }

  /** The port as `urlunsplit` writes it back; `None` when reading `port` raises `ValueError`. */
  function PortSuffix(port: Option<string>): Option<string>
  {
    match port
    case None => Some("")
    case Some(p) =>
      match PortValue(p)
      case Some(n) => Some(":" + DecimalString(n))
      case None => None
  }

  /** `urlunsplit` of the URL with its netloc replaced. */
  function Rebuild(scheme: string, userinfo: string, host: string, portSuffix: string, rest: string): string
  {
    (if scheme == [] then "" else scheme + ":") + "//" + userinfo + host + portSuffix + NormalizeRest(rest)
  }

  /**
   * `_sanitize_mirror_url`: `None` drops the URL. IP addresses and URLs
   * without a hostname are returned as they are; otherwise the hostname is
   * replaced by its sanitised form and the URL rebuilt.
   */
  function SanitizeMirrorUrl(url: string, idna: string -> string): Option<string>
  {
    match Split(RemoveUnsafe(url))
    case Unparseable => None
    case NoNetloc => Some(url)
    case Parts(scheme, netloc, rest) => SanitizeParts(url, scheme, netloc, rest, idna)
  }

  /** The sanitising of a URL that has a netloc. */
  function SanitizeParts(url: string, scheme: string, netloc: string, rest: string, idna: string -> string): Option<string>
  {
    var info := ParseHostInfo(netloc);
    var host := UrlHostname(info.host);
    if host == [] || IsIPAddress(host) then Some(url)
    else
      match PortSuffix(info.port)
      case None => None
      case Some(ps) => Some(Rebuild(scheme, info.userinfo, SanitizeHost(host, idna), ps, rest))
  }

  /** Dropped URLs are exactly those with a lone bracket in the netloc or an invalid port on a named host. */
  lemma SanitizeDrops(url: string, idna: string -> string)
    ensures SanitizeMirrorUrl(url, idna).None? <==>
      Split(RemoveUnsafe(url)).Unparseable?
      || (Split(RemoveUnsafe(url)).Parts?
          && var info := ParseHostInfo(Split(RemoveUnsafe(url)).netloc);
          var host := UrlHostname(info.host);
          host != [] && !IsIPAddress(host) && info.port.Some? && PortValue(info.port.value).None?)
  {
  }

  // ---------------------------------------------------------------------------
  // URLs of the usual shapes

  /** A valid scheme: a letter followed by letters, digits, `+`, `-` and `.`. */
  predicate IsScheme(s: string)
  {
    s != [] && IsAsciiLetter(s[0]) && forall j :: 0 <= j < |s| ==> IsSchemeChar(s[j])
  }

  /** The text a port is written as in a netloc. */
  function PortText(port: Option<nat>): string
  {
    match port
    case None => ""
    case Some(n) => ":" + DecimalString(n)
  }

  lemma {:induction false} RemoveUnsafeNoop(url: string)
    requires Avoids(url, UNSAFE)
    ensures RemoveUnsafe(url) == url
  {
    if url != [] {
      assert forall i :: 0 <= i < |url| - 1 ==> url[1..][i] == url[i + 1];
      RemoveUnsafeNoop(url[1..]);
      assert url == [url[0]] + url[1..];
    }
  }

  /** A URL starting with a valid scheme and a colon has its scheme end at that colon. */
  lemma SchemeEndAt(scheme: string, after: string)
    requires IsScheme(scheme)
    ensures SchemeEnd(scheme + [':'] + after) == Some(|scheme|)
  {
    var url := scheme + [':'] + after;
    assert ':' !in scheme by {
      forall j | 0 <= j < |scheme| ensures scheme[j] != ':' {
        assert IsSchemeChar(scheme[j]);
      }
    }
    FirstSeparatorAfter(scheme, ':', after);
    forall j | 0 <= j < |scheme| ensures IsSchemeChar(url[j]) {
      assert url[j] == scheme[j];
    }
  }

  /** `scheme://netloc/path` splits at the `//` and the first `/`, `?` or `#` after it. */
  lemma SplitWithNetloc(scheme: string, netloc: string, rest: string)
    requires IsScheme(scheme)
    requires forall j :: 0 <= j < |netloc| ==> netloc[j] !in {'/', '?', '#'}
    requires rest == [] || rest[0] == '/'
    ensures Split(scheme + "://" + netloc + rest) ==
      if ('[' in netloc) != (']' in netloc) then Unparseable else Parts(Lower(scheme), netloc, rest)
  {
    var url := scheme + "://" + netloc + rest;
    var after := "//" + netloc + rest;
    assert url == scheme + [':'] + after;
    SchemeEndAt(scheme, after);
    assert url[..|scheme|] == scheme;
    assert url[|scheme| + 1..] == after;
    SplitNetlocAfter(Lower(scheme), netloc, rest);
  }

  lemma SplitNetlocAfter(scheme: string, netloc: string, rest: string)
    requires forall j :: 0 <= j < |netloc| ==> netloc[j] !in {'/', '?', '#'}
    requires rest == [] || rest[0] == '/'
    ensures SplitNetloc(scheme, "//" + netloc + rest) ==
      if ('[' in netloc) != (']' in netloc) then Unparseable else Parts(scheme, netloc, rest)
  {
    var after := "//" + netloc + rest;
    var tail := after[2..];
    assert tail == netloc + rest;
    FirstIndexOfAt(netloc, {'/', '?', '#'}, rest);
    assert tail[..|netloc|] == netloc;
  }

  function PortString(port: Option<nat>): Option<string>
  {
    match port
    case None => None
    case Some(n) => Some(DecimalString(n))
  }

  /** A netloc made of a plain host and an optional port parses into those two. */
  lemma ParseHostInfoPlain(host: string, port: Option<nat>)
    requires Avoids(host, {'@', '[', ':'})
    ensures ParseHostInfo(host + PortText(port)) == HostInfo("", host, false, PortString(port))
  {
    var pt := PortText(port);
    var netloc := host + pt;
    assert forall j :: 0 <= j < |pt| ==> pt[j] != '@' && pt[j] != '[';
    assert '@' !in netloc by {
      forall j | 0 <= j < |netloc| ensures netloc[j] != '@' {
        if j >= |host| { assert netloc[j] == pt[j - |host|]; }
      }
    }
    NoUserinfo(netloc);
    ParseHostPortPlain(host, pt);
    if port.Some? {
      assert pt[1..] == DecimalString(port.value);
    }
  }

  /** Without `@` there is no userinfo. */
  lemma NoUserinfo(netloc: string)
    requires '@' !in netloc
    ensures ParseHostInfo(netloc) == ParseHostPort("", netloc)
  {
    assert LastIndexOf(netloc, '@') == None;
    assert netloc[|""|..] == netloc;
  }

  /** An unbracketed host followed by `:port` or nothing. */
  lemma ParseHostPortPlain(host: string, pt: string)
    requires Avoids(host, {'@', '[', ':'}) && '[' !in pt && (pt == [] || pt[0] == ':')
    ensures ParseHostPort("", host + pt) == HostInfo("", host, false, if |pt| <= 1 then None else Some(pt[1..]))
  {
    var netloc := host + pt;
    assert forall j :: 0 <= j < |netloc| ==> netloc[j] != '[' by {
      forall j | 0 <= j < |netloc| ensures netloc[j] != '[' {
        if j >= |host| { assert netloc[j] == pt[j - |host|]; }
      }
    }
    FirstIndexOfAt(netloc, {'['}, []);
    assert netloc + [] == netloc;
    FirstIndexOfAt(host, {':'}, pt);
    assert netloc[..|host|] == host;
    if pt != [] {
      assert netloc[|host| + 1..] == pt[1..];
    }
  }

  /** Without `?` or `#`, the part after the netloc is rebuilt as it was. */
  lemma NormalizeRestPlain(rest: string)
    requires Avoids(rest, {'?', '#'})
    ensures NormalizeRest(rest) == rest
  {
    FirstIndexOfAt(rest, {'#'}, []);
    assert rest + [] == rest;
    FirstIndexOfAt(rest, {'?'}, []);
  }

  /** The characters `urlsplit` removes. */
  const UNSAFE: set<char> := {'\t', '\r', '\n'}

  /** A scheme has no character `urlsplit` removes. */
  lemma SchemeIsSafe(scheme: string)
    requires IsScheme(scheme)
    ensures Avoids(scheme, UNSAFE + {'/', '?', '#', '@', '[', ']'})
  {
    forall j | 0 <= j < |scheme| ensures scheme[j] !in UNSAFE + {'/', '?', '#', '@', '[', ']'} {
      assert IsSchemeChar(scheme[j]);
    }
  }

  /** A written port is a colon followed by digits. */
  lemma PortTextChars(port: Option<nat>)
    ensures Avoids(PortText(port), UNSAFE + {'/', '?', '#', '@', '[', ']'})
  {
    if port.Some? {
      var d := DecimalString(port.value);
      assert forall j :: 0 <= j < |d| ==> IsAsciiDigit(d[j]);
      AvoidsConcat(":", d, UNSAFE + {'/', '?', '#', '@', '[', ']'});
    }
  }

  /** The sanitising of `scheme://host[:port]/path` once it is split. */
  lemma SanitizePartsPlain(url: string, scheme: string, host: string, port: Option<nat>, path: string,
                           idna: string -> string)
    requires scheme != []
    requires Avoids(host, {'@', '[', ':'})
    requires port.Some? ==> port.value <= 65535
    requires NormalizeRest(path) == path
    ensures var h := UrlHostname(host);
      SanitizeParts(url, scheme, host + PortText(port), path, idna) ==
        if h == [] || IsIPAddress(h) then Some(url)
        else Some(scheme + "://" + SanitizeHost(h, idna) + PortText(port) + path)
  {
    var info := ParseHostInfo(host + PortText(port));
    ParseHostInfoPlain(host, port);
    assert info.userinfo == "" && info.host == host && info.port == PortString(port);
    var h := UrlHostname(host);
    if !(h == [] || IsIPAddress(h)) {
      PortSuffixOfText(port);
      RebuildPlain(scheme, SanitizeHost(h, idna), PortText(port), path);
    }
  }

  /** Rebuilding without userinfo puts the pieces back in order. */
  lemma RebuildPlain(scheme: string, host: string, portSuffix: string, path: string)
    requires scheme != []
    requires NormalizeRest(path) == path
    ensures Rebuild(scheme, "", host, portSuffix, path) == scheme + "://" + host + portSuffix + path
  {
    assert scheme + ":" + "//" == scheme + "://";
  }

  /**
   * A URL `scheme://host[:port]/path` with a plain host: IP addresses and
   * empty hostnames are kept as they are; otherwise the scheme is
   * lower-cased, the hostname replaced by its sanitised form, and the port
   * and path are kept.
   */
  lemma SanitizePlainUrl(scheme: string, host: string, port: Option<nat>, path: string, idna: string -> string)
    requires IsScheme(scheme)
    requires Avoids(host, UNSAFE + {'/', '?', '#', '@', '[', ']', ':'})
    requires port.Some? ==> port.value <= 65535
    requires path == [] || path[0] == '/'
    requires Avoids(path, UNSAFE + {'?', '#'})
    ensures var url := scheme + "://" + host + PortText(port) + path;
      var h := UrlHostname(host);
      SanitizeMirrorUrl(url, idna) ==
        if h == [] || IsIPAddress(h) then Some(url)
        else Some(Lower(scheme) + "://" + SanitizeHost(h, idna) + PortText(port) + path)
  {
    SplitPlainUrl(scheme, host, port, path);
    NormalizeRestPlain(path);
    var url := scheme + "://" + host + PortText(port) + path;
    SanitizePartsPlain(url, Lower(scheme), host, port, path, idna);
  }

  /** A URL without characters `urlsplit` removes splits at its netloc. */
  lemma SplitSafeUrl(scheme: string, netloc: string, path: string)
    requires IsScheme(scheme)
    requires Avoids(netloc, UNSAFE + {'/', '?', '#'})
    requires path == [] || path[0] == '/'
    requires Avoids(path, UNSAFE)
    ensures Split(RemoveUnsafe(scheme + "://" + netloc + path)) ==
      if ('[' in netloc) != (']' in netloc) then Unparseable else Parts(Lower(scheme), netloc, path)
  {
    var url := scheme + "://" + netloc + path;
    SchemeIsSafe(scheme);
    AvoidsConcat(scheme, "://", UNSAFE);
    AvoidsConcat(scheme + "://", netloc, UNSAFE);
    AvoidsConcat(scheme + "://" + netloc, path, UNSAFE);
    RemoveUnsafeNoop(url);
    assert forall j :: 0 <= j < |netloc| ==> netloc[j] !in {'/', '?', '#'};
    SplitWithNetloc(scheme, netloc, path);
  }

  /** `scheme://host[:port]/path` splits at `host[:port]`. */
  lemma SplitPlainUrl(scheme: string, host: string, port: Option<nat>, path: string)
    requires IsScheme(scheme)
    requires Avoids(host, UNSAFE + {'/', '?', '#', '@', '[', ']', ':'})
    requires path == [] || path[0] == '/'
    requires Avoids(path, UNSAFE)
    ensures var url := scheme + "://" + host + PortText(port) + path;
      Split(RemoveUnsafe(url)) == Parts(Lower(scheme), host + PortText(port), path)
  {
    var bad := UNSAFE + {'/', '?', '#', '[', ']'};
    var pt := PortText(port);
    var netloc := host + pt;
    assert scheme + "://" + host + pt + path == scheme + "://" + netloc + path;
    PortTextChars(port);
    AvoidsFewer(host, UNSAFE + {'/', '?', '#', '@', '[', ']', ':'}, bad);
    AvoidsFewer(pt, UNSAFE + {'/', '?', '#', '@', '[', ']'}, bad);
    AvoidsConcat(host, pt, bad);
    SplitSafeUrl(scheme, netloc, path);
    assert '[' !in netloc && ']' !in netloc;
  }

  /** A port in range is written back as it was. */
  lemma PortSuffixOfText(port: Option<nat>)
    requires port.Some? ==> port.value <= 65535
    ensures PortSuffix(PortString(port)) == Some(PortText(port))
  {
    if port.Some? {
      ParseDecimalString(port.value);
    }
  }

  /** A bracketed host without a port parses into the text between the brackets. */
  lemma ParseHostInfoBracketed(addr: string)
    requires Avoids(addr, {'@', '[', ']'})
    ensures ParseHostInfo("[" + addr + "]") == HostInfo("", addr, true, None)
  {
    var netloc := "[" + addr + "]";
    AvoidsConcat("[", addr, {'@'});
    AvoidsConcat("[" + addr, "]", {'@'});
    assert LastIndexOf(netloc, '@') == None;
    assert netloc[|""|..] == netloc;
    assert netloc[0] == '[';
    var bracketed := netloc[1..];
    assert bracketed == addr + "]";
    FirstIndexOfAt(addr, {']'}, "]");
    assert bracketed[..|addr|] == addr;
    assert bracketed[|addr| + 1..] == [];
  }

  /** `scheme://[addr]/path` splits at the bracketed netloc. */
  lemma SplitBracketedUrl(scheme: string, addr: string, path: string)
    requires IsScheme(scheme)
    requires Avoids(addr, UNSAFE + {'/', '?', '#', '@', '[', ']'})
    requires path == [] || path[0] == '/'
    requires Avoids(path, UNSAFE)
    ensures var url := scheme + "://[" + addr + "]" + path;
      Split(RemoveUnsafe(url)) == Parts(Lower(scheme), "[" + addr + "]", path)
  {
    var netloc := "[" + addr + "]";
    assert scheme + "://[" + addr + "]" + path == scheme + "://" + netloc + path;
    AvoidsConcat("[", addr, UNSAFE + {'/', '?', '#'});
    AvoidsConcat("[" + addr, "]", UNSAFE + {'/', '?', '#'});
    assert netloc[0] == '[' && netloc[|netloc| - 1] == ']';
    SplitSafeUrl(scheme, netloc, path);
  }

  /** A URL whose host is an IP address is kept as it is, port included. */
  lemma SanitizeIPUrl(scheme: string, host: string, port: Option<nat>, path: string, idna: string -> string)
    requires IsScheme(scheme)
    requires Avoids(host, UNSAFE + {'/', '?', '#', '@', '[', ']', ':'})
    requires port.Some? ==> port.value <= 65535
    requires path == [] || path[0] == '/'
    requires Avoids(path, UNSAFE + {'?', '#'})
    requires IsIPAddress(UrlHostname(host))
    ensures var url := scheme + "://" + host + PortText(port) + path;
      SanitizeMirrorUrl(url, idna) == Some(url)
  {
    SanitizePlainUrl(scheme, host, port, path, idna);
  }

  /** A URL whose netloc is a bracketed IP address is kept as it is. */
  lemma SanitizeBracketedUrl(scheme: string, addr: string, path: string, idna: string -> string)
    requires IsScheme(scheme)
    requires Avoids(addr, UNSAFE + {'/', '?', '#', '@', '[', ']'})
    requires path == [] || path[0] == '/'
    requires Avoids(path, UNSAFE)
    requires IsIPAddress(UrlHostname(addr))
    ensures var url := scheme + "://[" + addr + "]" + path;
      SanitizeMirrorUrl(url, idna) == Some(url)
  {
    SplitBracketedUrl(scheme, addr, path);
    ParseHostInfoBracketed(addr);
  }

  /** A URL with an unbalanced bracket in its netloc is dropped. */
  lemma SanitizeUnbalancedUrl(scheme: string, netloc: string, path: string, idna: string -> string)
    requires IsScheme(scheme)
    requires Avoids(netloc, UNSAFE + {'/', '?', '#'})
    requires ('[' in netloc) != (']' in netloc)
    requires path == [] || path[0] == '/'
    requires Avoids(path, UNSAFE)
    ensures SanitizeMirrorUrl(scheme + "://" + netloc + path, idna) == None
  {
    SplitSafeUrl(scheme, netloc, path);
  }

  /** A string of host characters is ASCII and has nothing to replace. */
  lemma HostCharsFixed(h: string)
    requires HostChars(h)
    ensures AllAscii(h) && ReplaceInvalid(h) == h
  {
    forall i | 0 <= i < |h| ensures IsHostChar(h[i]) {
      assert h[i] in h;
    }
  }

  /** Sanitising a hostname made of labels of host characters strips each label. */
  lemma SanitizeLabels(labels: seq<string>, idna: string -> string)
    requires |labels| >= 1
    requires forall i :: 0 <= i < |labels| ==> HostChars(labels[i]) && '.' !in labels[i]
    ensures SanitizeHost(Join(".", labels), idna) == Join(".", StripLabelList(labels))
  {
    var h := Join(".", labels);
    JoinHostChars(labels);
    HostCharsFixed(h);
    SplitOnJoin(labels, '.');
    assert SplitOn(h, '.') == labels;
  }

  /** A hostname with a letter and no colon is neither an IPv4 nor an IPv6 address. */
  lemma NotIPWithLetter(h: string, k: nat)
    requires k < |h| && IsAsciiLetter(h[k]) && ':' !in h
    ensures !IsIPAddress(h)
  {
    assert h[k] in h;
    if IsIPv4(h) {
      IPv4DigitsAndDots(h);
    }
  }

  /** Host characters include none of the characters that end or split a netloc. */
  lemma HostCharsAvoid(host: string)
    requires HostChars(host)
    ensures Avoids(host, UNSAFE + {'/', '?', '#', '@', '[', ']', ':', '%'})
  {
    forall j | 0 <= j < |host| ensures host[j] !in UNSAFE + {'/', '?', '#', '@', '[', ']', ':', '%'} {
      assert host[j] in host;
    }
  }

  /** A host of host characters with a letter is a name, and its hostname is the host lower-cased. */
  lemma NamedHost(host: string, k: nat)
    requires HostChars(host) && k < |host| && IsAsciiLetter(host[k])
    ensures Avoids(host, UNSAFE + {'/', '?', '#', '@', '[', ']', ':'})
    ensures UrlHostname(host) == Lower(host) && Lower(host) != [] && !IsIPAddress(Lower(host))
  {
    HostCharsAvoid(host);
    AvoidsFewer(host, UNSAFE + {'/', '?', '#', '@', '[', ']', ':', '%'}, UNSAFE + {'/', '?', '#', '@', '[', ']', ':'});
    assert '%' !in host by {
      forall i | 0 <= i < |host| ensures host[i] != '%' {
        assert host[i] in host;
      }
    }
    UrlHostnamePlain(host);
    var h := Lower(host);
    assert ':' !in h by {
      forall i | 0 <= i < |h| ensures h[i] != ':' {
        assert host[i] in host;
      }
    }
    assert IsAsciiLetter(h[k]);
    NotIPWithLetter(h, k);
  }

  /**
   * A URL whose host is made of host characters, has a letter, and lower-cases
   * to a clean hostname comes back with its scheme and host lower-cased and
   * everything else as it was.
   */
  lemma SanitizeNamedUrl(scheme: string, host: string, k: nat, port: Option<nat>, path: string, idna: string -> string)
    requires IsScheme(scheme)
    requires HostChars(host) && k < |host| && IsAsciiLetter(host[k]) && IsCleanHost(Lower(host))
    requires port.Some? ==> port.value <= 65535
    requires path == [] || path[0] == '/'
    requires Avoids(path, UNSAFE + {'?', '#'})
    ensures SanitizeMirrorUrl(scheme + "://" + host + PortText(port) + path, idna)
      == Some(Lower(scheme) + "://" + Lower(host) + PortText(port) + path)
  {
    NamedHost(host, k);
    SanitizePlainUrl(scheme, host, port, path, idna);
    CleanHostFixed(Lower(host), idna);
  }

  /** Lower-casing keeps the characters that are not upper-case ASCII letters. */
  lemma LowerKeeps(s: string, i: nat)
    requires i < |s| && !IsAsciiUpper(s[i])
    ensures Lower(s)[i] == s[i]
  {
  }

  /**
   * A URL whose named host has a non-ASCII character gets, in place of its
   * hostname, the IDNA encoding of the lower-cased hostname, when that
   * encoding is a clean hostname.
   */
  lemma SanitizeIdnaUrl(scheme: string, host: string, k: nat, port: Option<nat>, path: string, idna: string -> string)
    requires IsScheme(scheme)
    requires Avoids(host, UNSAFE + {'/', '?', '#', '@', '[', ']', ':', '%'})
    requires k < |host| && IsAsciiLetter(host[k]) && !AllAscii(host)
    requires IsCleanHost(idna(Lower(host)))
    requires port.Some? ==> port.value <= 65535
    requires path == [] || path[0] == '/'
    requires Avoids(path, UNSAFE + {'?', '#'})
    ensures SanitizeMirrorUrl(scheme + "://" + host + PortText(port) + path, idna)
      == Some(Lower(scheme) + "://" + idna(Lower(host)) + PortText(port) + path)
  {
    AvoidsFewer(host, UNSAFE + {'/', '?', '#', '@', '[', ']', ':', '%'}, UNSAFE + {'/', '?', '#', '@', '[', ']', ':'});
    assert '%' !in host;
    UrlHostnamePlain(host);
    var h := Lower(host);
    assert ':' !in h by {
      forall i | 0 <= i < |h| ensures h[i] != ':' {
        assert host[i] != ':';
      }
    }
    NotIPWithLetter(h, k);
    var i :| 0 <= i < |host| && !IsAscii(host[i]);
    LowerKeeps(host, i);
    assert !AllAscii(h);
    SanitizePlainUrl(scheme, host, port, path, idna);
    HostCharsFixed(idna(h));
    CleanHostFixed(idna(h), idna);
  }

  // ===========================================================================
  // Resolution

  /** What one template contributes: a URL, nothing, or an exception that ends the call. */
  datatype TemplateMirror = Raises | Skipped | Mirror(url: string)

  /** `tmpl % subst` followed by `_sanitize_mirror_url`; a `KeyError` skips the template. */
  function FromTemplate(tmpl: string, subst: map<string, string>, idna: string -> string): TemplateMirror
  {
    match Format(tmpl, subst)
    case BadFormat => Raises
    case MissingKey(_) => Skipped
    case Text(url) =>
      match SanitizeMirrorUrl(url, idna)
      case None => Skipped
      case Some(u) => Mirror(u)
  }

  /** What each template contributes, in template order. */
  function Expand(templates: seq<string>, subst: map<string, string>, idna: string -> string): (r: seq<TemplateMirror>)
    ensures |r| == |templates|
    ensures forall i :: 0 <= i < |templates| ==> r[i] == FromTemplate(templates[i], subst, idna)
  {
    if templates == [] then [] else [FromTemplate(templates[0], subst, idna)] + Expand(templates[1..], subst, idna)
  }

  /** The loop over the templates: the URLs in order, skipping skipped templates; `None` once one raises. */
  function Collect(ms: seq<TemplateMirror>): Option<seq<string>>
  {
    if ms == [] then Some([])
    else
      match Collect(ms[..|ms| - 1])
      case None => None
      case Some(found) =>
        match ms[|ms| - 1]
        case Raises => None
        case Skipped => Some(found)
        case Mirror(u) => Some(found + [u])
  }

  /** The candidate URLs of one search list, in template order; `None` when a template raises. */
  function Candidates(templates: seq<string>, subst: map<string, string>, idna: string -> string): Option<seq<string>>
  {
    Collect(Expand(templates, subst, idna))
  }

  /** `results[name] = mirror` for every failsafe entry, in order. */
  function CopyFailsafe(failsafe: Dict): Dict
  {
    if failsafe == [] then []
    else Put(CopyFailsafe(failsafe[..|failsafe| - 1]), failsafe[|failsafe| - 1].0, failsafe[|failsafe| - 1].1)
  }

  /** One step of the search loop: a truthy filtered list replaces what the key had. */
  function SearchStep(results: Dict, name: string, templates: seq<string>, subst: map<string, string>,
                      filter: seq<string> -> Value, idna: string -> string): Option<Dict>
  {
    match Candidates(templates, subst, idna)
    case None => None
    case Some(mirrors) =>
      var found := filter(mirrors);
      if Truthy(found) then Some(Put(results, name, found)) else Some(results)
  }

  /** The search loop over the `search` mapping, in order. */
  function SearchResults(results: Dict, search: seq<(string, seq<string>)>, subst: map<string, string>,
                         filter: seq<string> -> Value, idna: string -> string): Option<Dict>
  {
    if search == [] then Some(results)
    else
      match SearchResults(results, search[..|search| - 1], subst, filter, idna)
      case None => None
      case Some(r) => SearchStep(r, search[|search| - 1].0, search[|search| - 1].1, subst, filter, idna)
  }

  /**
   * `_get_package_mirror_info(mirror_info, data_source, mirror_filter)`;
   * `None` when a template raises a formatting error.
   */
  function ResolveMirrors(info: MirrorInfo, ds: Option<DataSource>, allowEc2OnNonAws: bool,
                          filter: seq<string> -> Value, idna: string -> string): Option<Dict>
  {
    SearchResults(CopyFailsafe(info.failsafe), info.search, Substitutions(ds, allowEc2OnNonAws), filter, idna)
  }

  // ---------------------------------------------------------------------------
  // Properties of the resolution

  predicate NoBadTemplate(templates: seq<string>, subst: map<string, string>)
  {
    forall i :: 0 <= i < |templates| ==> !Format(templates[i], subst).BadFormat?
  }

  /** The loop over the templates completes exactly when none raises. */
  lemma {:induction false} CollectDefined(ms: seq<TemplateMirror>)
    ensures Collect(ms).Some? <==> forall i :: 0 <= i < |ms| ==> !ms[i].Raises?
  {
    if ms != [] {
      var init := ms[..|ms| - 1];
      CollectDefined(init);
      assert forall i :: 0 <= i < |init| ==> init[i] == ms[i];
    }
  }

  /** When every template gives a URL, the URLs come out in template order. */
  lemma {:induction false} CollectInOrder(ms: seq<TemplateMirror>)
    requires forall i :: 0 <= i < |ms| ==> ms[i].Mirror?
    ensures Collect(ms).Some?
    ensures |Collect(ms).value| == |ms|
    ensures forall i :: 0 <= i < |ms| ==> Collect(ms).value[i] == ms[i].url
  {
    if ms != [] {
      var init := ms[..|ms| - 1];
      assert forall i :: 0 <= i < |init| ==> init[i] == ms[i];
      CollectInOrder(init);
    }
  }

  /** The candidates exist exactly when no template has a formatting error. */
  lemma CandidatesDefined(templates: seq<string>, subst: map<string, string>, idna: string -> string)
    ensures Candidates(templates, subst, idna).Some? <==> NoBadTemplate(templates, subst)
  {
    var ms := Expand(templates, subst, idna);
    CollectDefined(ms);
    forall i | 0 <= i < |templates| ensures ms[i].Raises? <==> Format(templates[i], subst).BadFormat? {
    }
  }

  /**
   * Candidates keep template order: when every template fills in and
   * sanitises, the i-th candidate comes from the i-th template.
   */
  lemma CandidatesInOrder(templates: seq<string>, subst: map<string, string>, idna: string -> string)
    requires forall i :: 0 <= i < |templates| ==> FromTemplate(templates[i], subst, idna).Mirror?
    ensures Candidates(templates, subst, idna).Some?
    ensures |Candidates(templates, subst, idna).value| == |templates|
    ensures forall i :: 0 <= i < |templates| ==>
      Candidates(templates, subst, idna).value[i] == FromTemplate(templates[i], subst, idna).url
  {
    CollectInOrder(Expand(templates, subst, idna));
  }

  /** Copying a dict entry by entry gives the dict back. */
  lemma {:induction false} CopyFailsafeExact(failsafe: Dict)
    requires UniqueKeys(failsafe)
    ensures CopyFailsafe(failsafe) == failsafe
  {
    if failsafe != [] {
      var init := failsafe[..|failsafe| - 1];
      var last := failsafe[|failsafe| - 1];
      UniqueInit(failsafe);
      CopyFailsafeExact(init);
      assert init + [last] == failsafe;
    }
  }

  /** With no mirror info the result is empty. */
  lemma ResolveEmpty(ds: Option<DataSource>, allow: bool, filter: seq<string> -> Value, idna: string -> string)
    ensures ResolveMirrors(MirrorInfo([], []), ds, allow, filter, idna) == Some([])
  {
  }

  /** With only failsafe values, the result is the failsafe mapping. */
  lemma ResolveFailsafeOnly(failsafe: Dict, ds: Option<DataSource>, allow: bool,
                            filter: seq<string> -> Value, idna: string -> string)
    requires UniqueKeys(failsafe)
    ensures ResolveMirrors(MirrorInfo(failsafe, []), ds, allow, filter, idna) == Some(failsafe)
  {
    CopyFailsafeExact(failsafe);
  }

  /** The key names of the search mapping. */
  function SearchKeys(search: seq<(string, seq<string>)>): set<string>
  {
    set i | 0 <= i < |search| :: search[i].0
  }

  /** The search keys are distinct and no template has a formatting error. */
  predicate WellFormedSearch(search: seq<(string, seq<string>)>, subst: map<string, string>)
  {
    (forall i, j :: 0 <= i < j < |search| ==> search[i].0 != search[j].0)
    && forall i :: 0 <= i < |search| ==> NoBadTemplate(search[i].1, subst)
  }

  /** What one key ends up as: its filtered search list if truthy, else what it had before. */
  function KeyOutcome(before: Option<Value>, templates: seq<string>, subst: map<string, string>,
                      filter: seq<string> -> Value, idna: string -> string): Option<Value>
  {
    match Candidates(templates, subst, idna)
    case None => before
    case Some(mirrors) => if Truthy(filter(mirrors)) then Some(filter(mirrors)) else before
  }

  /** One search step sets its own key to its outcome and leaves every other key alone. */
  lemma SearchStepEffect(results: Dict, name: string, templates: seq<string>, subst: map<string, string>,
                         filter: seq<string> -> Value, idna: string -> string)
    requires NoBadTemplate(templates, subst)
    ensures SearchStep(results, name, templates, subst, filter, idna).Some?
    ensures Get(SearchStep(results, name, templates, subst, filter, idna).value, name)
      == KeyOutcome(Get(results, name), templates, subst, filter, idna)
    ensures forall k :: k != name ==> Get(SearchStep(results, name, templates, subst, filter, idna).value, k) == Get(results, k)
  {
    CandidatesDefined(templates, subst, idna);
  }

  /** The search loop succeeds when no template has a formatting error. */
  lemma {:induction false} SearchResultsDefined(results: Dict, search: seq<(string, seq<string>)>,
                                                subst: map<string, string>, filter: seq<string> -> Value,
                                                idna: string -> string)
    requires forall i :: 0 <= i < |search| ==> NoBadTemplate(search[i].1, subst)
    ensures SearchResults(results, search, subst, filter, idna).Some?
  {
    if search != [] {
      var init := search[..|search| - 1];
      assert forall i :: 0 <= i < |init| ==> init[i] == search[i];
      SearchResultsDefined(results, init, subst, filter, idna);
      var r := SearchResults(results, init, subst, filter, idna).value;
      SearchStepEffect(r, search[|search| - 1].0, search[|search| - 1].1, subst, filter, idna);
    }
  }

  /** A key that is not searched keeps what it had. */
  lemma {:induction false} SearchResultsUnsearched(results: Dict, search: seq<(string, seq<string>)>,
                                                   subst: map<string, string>, filter: seq<string> -> Value,
                                                   idna: string -> string, k: string)
    requires forall i :: 0 <= i < |search| ==> NoBadTemplate(search[i].1, subst)
    requires k !in SearchKeys(search)
    ensures SearchResults(results, search, subst, filter, idna).Some?
    ensures Get(SearchResults(results, search, subst, filter, idna).value, k) == Get(results, k)
  {
    SearchResultsDefined(results, search, subst, filter, idna);
    if search != [] {
      var init := search[..|search| - 1];
      assert forall i :: 0 <= i < |init| ==> init[i] == search[i];
      assert search[|search| - 1].0 in SearchKeys(search);
      SearchResultsUnsearched(results, init, subst, filter, idna, k);
      var r := SearchResults(results, init, subst, filter, idna).value;
      SearchStepEffect(r, search[|search| - 1].0, search[|search| - 1].1, subst, filter, idna);
    }
  }

  /** A searched key ends up as its outcome, computed from what it had before the loop. */
  lemma {:induction false} SearchResultsSearched(results: Dict, search: seq<(string, seq<string>)>,
                                                 subst: map<string, string>, filter: seq<string> -> Value,
                                                 idna: string -> string, i: nat)
    requires WellFormedSearch(search, subst)
    requires i < |search|
    ensures SearchResults(results, search, subst, filter, idna).Some?
    ensures Get(SearchResults(results, search, subst, filter, idna).value, search[i].0)
      == KeyOutcome(Get(results, search[i].0), search[i].1, subst, filter, idna)
  {
    SearchResultsDefined(results, search, subst, filter, idna);
    var init := search[..|search| - 1];
    assert forall j :: 0 <= j < |init| ==> init[j] == search[j];
    var last := search[|search| - 1];
    SearchResultsDefined(results, init, subst, filter, idna);
    var r := SearchResults(results, init, subst, filter, idna).value;
    SearchStepEffect(r, last.0, last.1, subst, filter, idna);
    if i == |search| - 1 {
      assert last.0 !in SearchKeys(init);
      SearchResultsUnsearched(results, init, subst, filter, idna, last.0);
    } else {
      SearchResultsSearched(results, init, subst, filter, idna, i);
    }
  }

  /**
   * The resolved mirror of each searched key: the filtered search list when
   * it is truthy, otherwise the failsafe value verbatim (or no entry).
   */
  lemma ResolveSearchedKey(info: MirrorInfo, ds: Option<DataSource>, allow: bool,
                           filter: seq<string> -> Value, idna: string -> string, i: nat)
    requires UniqueKeys(info.failsafe)
    requires WellFormedSearch(info.search, Substitutions(ds, allow))
    requires i < |info.search|
    ensures ResolveMirrors(info, ds, allow, filter, idna).Some?
    ensures Get(ResolveMirrors(info, ds, allow, filter, idna).value, info.search[i].0)
      == KeyOutcome(Get(info.failsafe, info.search[i].0), info.search[i].1, Substitutions(ds, allow), filter, idna)
  {
    CopyFailsafeExact(info.failsafe);
    SearchResultsSearched(info.failsafe, info.search, Substitutions(ds, allow), filter, idna, i);
  }

  /** A key without a search list takes its failsafe value (or has no entry). */
  lemma ResolveUnsearchedKey(info: MirrorInfo, ds: Option<DataSource>, allow: bool,
                             filter: seq<string> -> Value, idna: string -> string, k: string)
    requires UniqueKeys(info.failsafe)
    requires WellFormedSearch(info.search, Substitutions(ds, allow))
    requires k !in SearchKeys(info.search)
    ensures ResolveMirrors(info, ds, allow, filter, idna).Some?
    ensures Get(ResolveMirrors(info, ds, allow, filter, idna).value, k) == Get(info.failsafe, k)
  {
    CopyFailsafeExact(info.failsafe);
    SearchResultsUnsearched(info.failsafe, info.search, Substitutions(ds, allow), filter, idna, k);
  }

  /** When the filter eliminates every candidate, a key keeps its failsafe value verbatim. */
  lemma FilterEliminatesAll(info: MirrorInfo, ds: Option<DataSource>, allow: bool,
                            filter: seq<string> -> Value, idna: string -> string, i: nat)
    requires UniqueKeys(info.failsafe)
    requires WellFormedSearch(info.search, Substitutions(ds, allow))
    requires i < |info.search|
    requires forall urls :: !Truthy(filter(urls))
    ensures ResolveMirrors(info, ds, allow, filter, idna).Some?
    ensures Get(ResolveMirrors(info, ds, allow, filter, idna).value, info.search[i].0) == Get(info.failsafe, info.search[i].0)
  {
    ResolveSearchedKey(info, ds, allow, filter, idna, i);
  }

  /** One search step fails exactly when one of its templates has a formatting error. */
  lemma SearchStepDefined(results: Dict, name: string, templates: seq<string>, subst: map<string, string>,
                          filter: seq<string> -> Value, idna: string -> string)
    ensures SearchStep(results, name, templates, subst, filter, idna).Some? <==> NoBadTemplate(templates, subst)
  {
    CandidatesDefined(templates, subst, idna);
  }

  /** The search loop only succeeds when none of the templates has a formatting error. */
  lemma {:induction false} SearchResultsNeedsFormat(results: Dict, search: seq<(string, seq<string>)>,
                                                    subst: map<string, string>, filter: seq<string> -> Value,
                                                    idna: string -> string, i: nat)
    requires SearchResults(results, search, subst, filter, idna).Some?
    requires i < |search|
    ensures NoBadTemplate(search[i].1, subst)
  {
    var init := search[..|search| - 1];
    var last := search[|search| - 1];
    var r := SearchResults(results, init, subst, filter, idna).value;
    if i == |search| - 1 {
      SearchStepDefined(r, last.0, last.1, subst, filter, idna);
    } else {
      assert init[i] == search[i];
      SearchResultsNeedsFormat(results, init, subst, filter, idna, i);
    }
  }

  /** `_get_package_mirror_info` returns exactly when no template has a formatting error. */
  lemma ResolveSucceeds(info: MirrorInfo, ds: Option<DataSource>, allow: bool,
                        filter: seq<string> -> Value, idna: string -> string)
    ensures ResolveMirrors(info, ds, allow, filter, idna).Some? <==>
      forall i :: 0 <= i < |info.search| ==> NoBadTemplate(info.search[i].1, Substitutions(ds, allow))
  {
    var subst := Substitutions(ds, allow);
    var results := CopyFailsafe(info.failsafe);
    if forall i :: 0 <= i < |info.search| ==> NoBadTemplate(info.search[i].1, subst) {
      SearchResultsDefined(results, info.search, subst, filter, idna);
    }
    if ResolveMirrors(info, ds, allow, filter, idna).Some? {
      forall i | 0 <= i < |info.search| ensures NoBadTemplate(info.search[i].1, subst) {
        SearchResultsNeedsFormat(results, info.search, subst, filter, idna, i);
      }
    }
  }
}
