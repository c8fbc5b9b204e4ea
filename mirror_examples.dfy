/**
 * The behaviour `TestGetPackageMirrorInfo` in
 * `tests/unittests/distros/test_init.py` asserts, stated as lemmas about the
 * package-mirror model. Each test case becomes a lemma over every input of
 * the shape the test uses (the test's own values are instances), and the
 * list of characters the test expects to be replaced by hyphens is built by
 * a method with the test's loops.
 *
 * Many small lemmas below only split a concrete string into the pieces a
 * template produces (`HttpPieces`, `Ec2Pieces`, ...). Each keeps one literal
 * equality out of the larger lemma that uses it, so that no single proof
 * obligation grows too expensive for the verifier.
 */
module MirrorExamples {
  import opened Wrappers
  import opened Text
  import opened PyValues
  import opened PackageMirrors

  /** A list of URLs as the Python value the mirror filter receives: `mirror_filter=lambda x: x`. */
  function UrlList(urls: seq<string>): Value
  {
    VList(seq(|urls|, i requires 0 <= i < |urls| => VStr(urls[i])))
  }

  /** `mirror_filter=lambda x: False` */
  function RejectAll(urls: seq<string>): Value
  {
    VBool(false)
  }

  /** The mirror info `{"search": {"primary": patterns}}`. */
  function PrimarySearch(patterns: seq<string>): MirrorInfo
  {
    MirrorInfo([], [("primary", patterns)])
  }

  // ---------------------------------------------------------------------------
  // Strings

  lemma AppendEmpty(s: string)
    ensures s + "" == s
  {
  }

  lemma NoPortUrl(scheme: string, host: string, path: string)
    ensures scheme + "://" + host + PortText(None) + path == scheme + "://" + host + path
  {
    assert PortText(None) == "";
    assert scheme + "://" + host + "" == scheme + "://" + host;
  }

  /** The pieces of a URL with a filled-in host, grouped as the template has them and as the host has them. */
  lemma Regroup(lead: string, prefix: string, value: string, hostSuffix: string, path: string)
    ensures lead + prefix + value + (hostSuffix + path) == lead + (prefix + value + hostSuffix) + path
    ensures prefix + value + hostSuffix == prefix + (value + hostSuffix)
    ensures lead + (prefix + (value + hostSuffix)) + path == (lead + prefix) + value + (hostSuffix + path)
  {
  }

  // ---------------------------------------------------------------------------
  // Building blocks

  /** LDH characters without upper-case letters, not ending in a hyphen: what follows a label's first letters. */
  predicate IsLabelTail(v: string)
  {
    v != [] && (forall c :: c in v ==> IsLdh(c) && !IsAsciiUpper(c)) && v[|v| - 1] != '-'
  }

  /** One label of host characters, without a leading or trailing hyphen, is a clean hostname. */
  lemma SingleLabelClean(l: string)
    requires l != [] && HostChars(l) && '.' !in l && l[0] != '-' && l[|l| - 1] != '-'
    ensures IsCleanHost(l)
  {
    SplitOnAbsent(l, '.');
  }

  /** Lower-casing keeps LDH characters LDH. */
  lemma LowerKeepsLdh(s: string)
    requires forall c :: c in s ==> IsLdh(c)
    ensures forall c :: c in Lower(s) ==> IsLdh(c)
  {
    forall c | c in Lower(s) ensures IsLdh(c) {
      var i :| 0 <= i < |s| && Lower(s)[i] == c;
      assert s[i] in s;
    }
  }

  /** A label starting with a letter, followed by a lower-case tail, lower-cases to a clean hostname. */
  lemma PrefixedLabel(prefix: string, tail: string)
    requires prefix != [] && IsAsciiLetter(prefix[0]) && forall c :: c in prefix ==> IsLdh(c)
    requires IsLabelTail(tail)
    ensures HostChars(prefix + tail) && IsCleanHost(Lower(prefix + tail))
    ensures Lower(prefix + tail) == Lower(prefix) + tail
  {
    LowerConcat(prefix, tail);
    LowerNoUpper(tail);
    LowerKeepsLdh(prefix);
    var l := Lower(prefix) + tail;
    assert forall c :: c in l ==> IsLdh(c);
    assert forall c :: c in prefix + tail ==> IsLdh(c);
    assert l[0] == LowerChar(prefix[0]);
    assert l[|l| - 1] == tail[|tail| - 1];
    SingleLabelClean(l);
  }

  /** A template whose formatted text sanitises to a URL gives that URL. */
  lemma TemplateGives(t: string, subst: map<string, string>, idna: string -> string, url: string, u: string)
    requires Format(t, subst) == Text(url)
    requires SanitizeMirrorUrl(url, idna) == Some(u)
    ensures FromTemplate(t, subst, idna) == Mirror(u)
  {
  }

  /** Filling in a placeholder that is offered, after a `scheme://` lead. */
  lemma PlaceholderFilled(lead: string, prefix: string, key: string, suffix: string, subst: map<string, string>)
    requires key in subst
    requires '%' !in lead + prefix && ')' !in key && '%' !in suffix
    ensures Format(lead + prefix + "%(" + key + ")s" + suffix, subst) == Text(lead + prefix + subst[key] + suffix)
  {
    assert lead + prefix + "%(" + key + ")s" + suffix == (lead + prefix) + "%(" + key + ")s" + suffix;
    FormatPlaceholder(lead + prefix, key, suffix, subst);
    assert (lead + prefix) + subst[key] + suffix == lead + prefix + subst[key] + suffix;
  }

  /** `<scheme>://<host><path>` with a named host comes back with the scheme and host lower-cased. */
  lemma LeadNamedUrl(lead: string, scheme: string, host: string, path: string, idna: string -> string)
    requires IsScheme(scheme) && lead == scheme + "://"
    requires HostChars(host) && host != [] && IsAsciiLetter(host[0]) && IsCleanHost(Lower(host))
    requires path == [] || path[0] == '/'
    requires Avoids(path, UNSAFE + {'?', '#'})
    ensures SanitizeMirrorUrl(lead + host + path, idna) == Some(Lower(scheme) + "://" + Lower(host) + path)
  {
    NoPortUrl(scheme, host, path);
    NoPortUrl(Lower(scheme), Lower(host), path);
    SanitizeNamedUrl(scheme, host, 0, None, path, idna);
  }

  /**
   * `<scheme>://<prefix>%(<key>)s<hostSuffix><path>`, where the prefix starts
   * with a letter and the value and host suffix form a lower-case label tail,
   * gives the URL with the prefix lower-cased and the rest as it was.
   */
  lemma PlaceholderHostTemplate(lead: string, scheme: string, prefix: string, lowPrefix: string, key: string,
                                value: string, hostSuffix: string, path: string,
                                subst: map<string, string>, idna: string -> string)
    requires IsScheme(scheme) && lead == scheme + "://" && Lower(scheme) == scheme
    requires key in subst && subst[key] == value
    requires '%' !in lead + prefix && ')' !in key && '%' !in hostSuffix + path
    requires prefix != [] && IsAsciiLetter(prefix[0]) && (forall c :: c in prefix ==> IsLdh(c)) && Lower(prefix) == lowPrefix
    requires IsLabelTail(value + hostSuffix)
    requires path == [] || path[0] == '/'
    requires Avoids(path, UNSAFE + {'?', '#'})
    ensures FromTemplate(lead + prefix + "%(" + key + ")s" + (hostSuffix + path), subst, idna)
      == Mirror((lead + lowPrefix) + value + (hostSuffix + path))
  {
    var host := prefix + value + hostSuffix;
    var t := lead + prefix + "%(" + key + ")s" + (hostSuffix + path);
    PrefixedLabel(prefix, value + hostSuffix);
    Regroup(lead, prefix, value, hostSuffix, path);
    PlaceholderFilled(lead, prefix, key, hostSuffix + path, subst);
    var url := lead + prefix + value + (hostSuffix + path);
    assert host[0] == prefix[0];
    LeadNamedUrl(lead, scheme, host, path, idna);
    Regroup(lead, lowPrefix, value, hostSuffix, path);
    TemplateGives(t, subst, idna, url, (lead + lowPrefix) + value + (hostSuffix + path));
  }

  /** A template naming a value that is not offered is skipped. */
  lemma MissingKeySkipped(prefix: string, key: string, suffix: string, subst: map<string, string>, idna: string -> string)
    requires '%' !in prefix && ')' !in key && '%' !in suffix && key !in subst
    ensures FromTemplate(prefix + "%(" + key + ")s" + suffix, subst, idna) == Skipped
  {
    FormatPlaceholder(prefix, key, suffix, subst);
  }

  lemma CandidatesOne(t: string, subst: map<string, string>, idna: string -> string, u: string)
    requires FromTemplate(t, subst, idna) == Mirror(u)
    ensures Candidates([t], subst, idna) == Some([u])
  {
    var ms := Expand([t], subst, idna);
    assert ms == [Mirror(u)];
    assert ms[..|ms| - 1] == [];
    assert Collect(ms[..|ms| - 1]) == Some([]);
    assert Collect(ms) == Some([] + [u]);
    assert [] + [u] == [u];
    assert Candidates([t], subst, idna) == Collect(ms);
  }

  lemma CandidatesTwo(t1: string, t2: string, subst: map<string, string>, idna: string -> string, m1: TemplateMirror, u: string)
    requires FromTemplate(t1, subst, idna) == m1 && !m1.Raises?
    requires FromTemplate(t2, subst, idna) == Mirror(u)
    ensures Candidates([t1, t2], subst, idna) == Some(if m1.Mirror? then [m1.url, u] else [u])
  {
    var ms := Expand([t1, t2], subst, idna);
    assert ms == [m1, Mirror(u)];
    var first := [m1];
    assert ms[..|ms| - 1] == first;
    assert first[..|first| - 1] == [];
    assert Collect(first[..|first| - 1]) == Some([]);
    var found := if m1.Mirror? then [m1.url] else [];
    assert m1.Mirror? ==> [] + [m1.url] == [m1.url];
    assert Collect(first) == Some(found);
    assert Collect(ms) == Some(found + [u]);
    assert found + [u] == if m1.Mirror? then [m1.url, u] else [u];
    assert Candidates([t1, t2], subst, idna) == Collect(ms);
  }

  /** Only the search key `primary`, with the identity filter: its candidates, when there are some. */
  lemma OnlyPrimary(patterns: seq<string>, ds: DataSource, idna: string -> string, expected: seq<string>)
    requires Candidates(patterns, Substitutions(Some(ds), true), idna) == Some(expected)
    requires expected != []
    ensures ResolveMirrors(PrimarySearch(patterns), Some(ds), true, UrlList, idna)
      == Some([("primary", UrlList(expected))])
  {
    var subst := Substitutions(Some(ds), true);
    var search := [("primary", patterns)];
    assert CopyFailsafe([]) == [];
    assert search[..0] == [];
    assert SearchResults([], search[..0], subst, UrlList, idna) == Some([]);
    assert Truthy(UrlList(expected));
    assert Put([], "primary", UrlList(expected)) == [("primary", UrlList(expected))];
  }

  /** An EC2 zone is letters, digits and hyphens; so is its region, which ends in the zone's digit. */
  lemma Ec2ZoneShape(az: string)
    requires IsEc2Zone(az)
    ensures IsLabelTail(az) && IsLabelTail(az[..|az| - 1])
  {
    var m := az[3..|az| - 2];
    forall i | 0 <= i < |az| ensures IsLdh(az[i]) && !IsAsciiUpper(az[i]) {
      if 3 <= i < |az| - 2 {
        assert az[i] == m[i - 3];
      }
    }
    var region := az[..|az| - 1];
    forall c | c in region ensures IsLdh(c) && !IsAsciiUpper(c) {
      var i :| 0 <= i < |region| && region[i] == c;
      assert c == az[i];
    }
    forall c | c in az ensures IsLdh(c) && !IsAsciiUpper(c) {
      var i :| 0 <= i < |az| && az[i] == c;
    }
  }

  // ---------------------------------------------------------------------------
  // test_valid_substitution (EC2 mirrors allowed, platform "ec2")

  /** Only `primary`, with one template that gives a URL: the result is that URL. */
  lemma PrimaryFromOne(t: string, ds: DataSource, idna: string -> string, u: string)
    requires FromTemplate(t, Substitutions(Some(ds), true), idna) == Mirror(u)
    ensures ResolveMirrors(PrimarySearch([t]), Some(ds), true, UrlList, idna) == Some([("primary", UrlList([u]))])
  {
    CandidatesOne(t, Substitutions(Some(ds), true), idna, u);
    OnlyPrimary([t], ds, idna, [u]);
  }

  /** The literal pieces shared by the `http://.../ubuntu` templates. */
  lemma HttpPieces()
    ensures IsScheme("http") && "http://" == "http" + "://" && Lower("http") == "http"
    ensures Avoids("/ubuntu", UNSAFE + {'?', '#'}) && "/ubuntu"[0] == '/'
    ensures '%' !in "" + "/ubuntu" && "" + "/ubuntu" == "/ubuntu"
  {
  }

  lemma Ec2Template()
    ensures "http://EC2-%(ec2_region)s/ubuntu" == "http://" + "EC2-" + "%(" + "ec2_region" + ")s" + ("" + "/ubuntu")
  {
  }

  lemma Ec2Pieces()
    ensures '%' !in "http://" + "EC2-" && ')' !in "ec2_region"
    ensures Lower("EC2-") == "ec2-" && "http://" + "ec2-" == "http://ec2-"
    ensures forall c :: c in "EC2-" ==> IsLdh(c)
  {
  }

  lemma Ec2RegionValue(az: string)
    requires IsEc2Zone(az)
    ensures var subst := Substitutions(Some(DataSource(az, "", "ec2")), true);
      "ec2_region" in subst && subst["ec2_region"] == az[..|az| - 1]
  {
  }

  /** `ec2_region` alone: the zone `fk-fake-1f` gives the region `fk-fake-1`. */
  lemma Ec2RegionAlone(az: string, idna: string -> string)
    requires IsEc2Zone(az)
    ensures ResolveMirrors(PrimarySearch(["http://EC2-%(ec2_region)s/ubuntu"]), Some(DataSource(az, "", "ec2")), true, UrlList, idna)
      == Some([("primary", UrlList(["http://ec2-" + az[..|az| - 1] + "/ubuntu"]))])
  {
    var ds := DataSource(az, "", "ec2");
    var region := az[..|az| - 1];
    Ec2RegionValue(az);
    Ec2ZoneShape(az);
    AppendEmpty(region);
    HttpPieces();
    Ec2Template();
    Ec2Pieces();
    PlaceholderHostTemplate("http://", "http", "EC2-", "ec2-", "ec2_region", region, "", "/ubuntu", Substitutions(Some(ds), true), idna);
    PrimaryFromOne("http://EC2-%(ec2_region)s/ubuntu", ds, idna, "http://ec2-" + region + "/ubuntu");
  }

  lemma AzTemplate()
    ensures "http://AZ-%(availability_zone)s/ubuntu" == "http://" + "AZ-" + "%(" + "availability_zone" + ")s" + ("" + "/ubuntu")
  {
  }

  lemma AzPieces()
    ensures '%' !in "http://" + "AZ-" && ')' !in "availability_zone"
    ensures Lower("AZ-") == "az-" && "http://" + "az-" == "http://az-"
    ensures forall c :: c in "AZ-" ==> IsLdh(c)
  {
  }

  lemma AzValue(d: DataSource, allow: bool)
    requires d.availabilityZone != ""
    ensures var subst := Substitutions(Some(d), allow);
      "availability_zone" in subst && subst["availability_zone"] == d.availabilityZone
  {
  }

  /** `http://AZ-%(availability_zone)s/ubuntu` takes the zone as it is. */
  lemma AzTemplateGives(d: DataSource, allow: bool, idna: string -> string)
    requires IsLabelTail(d.availabilityZone)
    ensures FromTemplate("http://AZ-%(availability_zone)s/ubuntu", Substitutions(Some(d), allow), idna)
      == Mirror("http://az-" + d.availabilityZone + "/ubuntu")
  {
    var az := d.availabilityZone;
    AzValue(d, allow);
    AppendEmpty(az);
    HttpPieces();
    AzTemplate();
    AzPieces();
    PlaceholderHostTemplate("http://", "http", "AZ-", "az-", "availability_zone", az, "", "/ubuntu", Substitutions(Some(d), allow), idna);
  }

  /** `availability_zone` alone: the zone `fk-fake-1f` is used whole. */
  lemma AvailabilityZoneAlone(az: string, idna: string -> string)
    requires IsLabelTail(az)
    ensures ResolveMirrors(PrimarySearch(["http://AZ-%(availability_zone)s/ubuntu"]), Some(DataSource(az, "", "ec2")), true, UrlList, idna)
      == Some([("primary", UrlList(["http://az-" + az + "/ubuntu"]))])
  {
    var ds := DataSource(az, "", "ec2");
    AzTemplateGives(ds, true, idna);
    PrimaryFromOne("http://AZ-%(availability_zone)s/ubuntu", ds, idna, "http://az-" + az + "/ubuntu");
  }

  lemma RgTemplate(suffix: string)
    ensures "http://RG-%(region)s" + suffix == "http://" + "RG-" + "%(" + "region" + ")s" + suffix
  {
  }

  lemma RgPieces()
    ensures '%' !in "http://" + "RG-" && ')' !in "region"
    ensures Lower("RG-") == "rg-" && "http://" + "rg-" == "http://rg-"
    ensures forall c :: c in "RG-" ==> IsLdh(c)
  {
  }

  lemma RegionValue(d: DataSource, allow: bool)
    requires d.region != ""
    ensures var subst := Substitutions(Some(d), allow);
      "region" in subst && subst["region"] == d.region
  {
  }

  /** `http://RG-%(region)s<hostSuffix>/ubuntu` takes the region as it is. */
  lemma RgTemplateGives(t: string, d: DataSource, allow: bool, hostSuffix: string, idna: string -> string)
    requires t == "http://RG-%(region)s" + (hostSuffix + "/ubuntu")
    requires IsLabelTail(d.region) && IsLabelTail(d.region + hostSuffix) && '%' !in hostSuffix
    ensures FromTemplate(t, Substitutions(Some(d), allow), idna)
      == Mirror("http://rg-" + d.region + (hostSuffix + "/ubuntu"))
  {
    RegionValue(d, allow);
    HttpPieces();
    RgTemplate(hostSuffix + "/ubuntu");
    RgPieces();
    assert '%' !in hostSuffix + "/ubuntu";
    PlaceholderHostTemplate("http://", "http", "RG-", "rg-", "region", d.region, hostSuffix, "/ubuntu", Substitutions(Some(d), allow), idna);
  }

  lemma RgAlonePieces()
    ensures "http://RG-%(region)s/ubuntu" == "http://RG-%(region)s" + ("" + "/ubuntu")
    ensures "" + "/ubuntu" == "/ubuntu" && '%' !in ""
  {
  }

  /** `region` alone: the region `fk-fake-1` is used whole. */
  lemma RegionAlone(r: string, idna: string -> string)
    requires IsLabelTail(r)
    ensures ResolveMirrors(PrimarySearch(["http://RG-%(region)s/ubuntu"]), Some(DataSource("", r, "ec2")), true, UrlList, idna)
      == Some([("primary", UrlList(["http://rg-" + r + "/ubuntu"]))])
  {
    var ds := DataSource("", r, "ec2");
    AppendEmpty(r);
    RgAlonePieces();
    RgTemplateGives("http://RG-%(region)s/ubuntu", ds, true, "", idna);
    PrimaryFromOne("http://RG-%(region)s/ubuntu", ds, idna, "http://rg-" + r + "/ubuntu");
  }

  /** `ec2_region` is not available for a zone of another shape: `fake-fake-1f` skips the EC2 template. */
  lemma Ec2NeedsEc2Zone(az: string, idna: string -> string)
    requires IsLabelTail(az) && !IsEc2Zone(az)
    ensures ResolveMirrors(PrimarySearch(["http://EC2-%(ec2_region)s/ubuntu", "http://AZ-%(availability_zone)s/ubuntu"]),
                           Some(DataSource(az, "", "ec2")), true, UrlList, idna)
      == Some([("primary", UrlList(["http://az-" + az + "/ubuntu"]))])
  {
    var ds := DataSource(az, "", "ec2");
    var subst := Substitutions(Some(ds), true);
    Ec2RegionOffered(ds, true);
    Ec2Template();
    Ec2Pieces();
    HttpPieces();
    MissingKeySkipped("http://" + "EC2-", "ec2_region", "" + "/ubuntu", subst, idna);
    AzTemplateGives(ds, true, idna);
    var u := "http://az-" + az + "/ubuntu";
    CandidatesTwo("http://EC2-%(ec2_region)s/ubuntu", "http://AZ-%(availability_zone)s/ubuntu", subst, idna, Skipped, u);
    OnlyPrimary(["http://EC2-%(ec2_region)s/ubuntu", "http://AZ-%(availability_zone)s/ubuntu"], ds, idna, [u]);
  }

  /** A lower-case label tail followed by another is one. */
  lemma LabelTailConcat(v: string, w: string)
    requires IsLabelTail(v) && IsLabelTail(w)
    ensures IsLabelTail(v + w)
  {
  }

  lemma OrderPieces()
    ensures IsLabelTail("-1") && IsLabelTail("-2") && '%' !in "-1" && '%' !in "-2"
    ensures "http://RG-%(region)s-2/ubuntu" == "http://RG-%(region)s" + ("-2" + "/ubuntu")
    ensures "http://RG-%(region)s-1/ubuntu" == "http://RG-%(region)s" + ("-1" + "/ubuntu")
    ensures "-2" + "/ubuntu" == "-2/ubuntu" && "-1" + "/ubuntu" == "-1/ubuntu"
  {
  }

  /** Template order is kept: the `-2` mirror stays ahead of the `-1` mirror. */
  lemma TemplateOrderKept(r: string, idna: string -> string)
    requires IsLabelTail(r)
    ensures ResolveMirrors(PrimarySearch(["http://RG-%(region)s-2/ubuntu", "http://RG-%(region)s-1/ubuntu"]),
                           Some(DataSource("", r, "ec2")), true, UrlList, idna)
      == Some([("primary", UrlList(["http://rg-" + r + "-2/ubuntu", "http://rg-" + r + "-1/ubuntu"]))])
  {
    var ds := DataSource("", r, "ec2");
    var subst := Substitutions(Some(ds), true);
    OrderPieces();
    LabelTailConcat(r, "-2");
    LabelTailConcat(r, "-1");
    RgTemplateGives("http://RG-%(region)s-2/ubuntu", ds, true, "-2", idna);
    RgTemplateGives("http://RG-%(region)s-1/ubuntu", ds, true, "-1", idna);
    var u2 := "http://rg-" + r + "-2/ubuntu";
    var u1 := "http://rg-" + r + "-1/ubuntu";
    CandidatesTwo("http://RG-%(region)s-2/ubuntu", "http://RG-%(region)s-1/ubuntu", subst, idna, Mirror(u2), u1);
    OnlyPrimary(["http://RG-%(region)s-2/ubuntu", "http://RG-%(region)s-1/ubuntu"], ds, idna, [u2, u1]);
  }

  // ---------------------------------------------------------------------------
  // Fixed hosts and hosts that are kept

  /** A lower-case hostname starting with a letter that is already clean: sanitising keeps it. */
  predicate IsLowerName(h: string)
  {
    h != [] && IsAsciiLetter(h[0]) && (forall c :: c in h ==> IsHostChar(c) && !IsAsciiUpper(c)) && IsCleanHost(h)
  }

  lemma LowerNameFacts(h: string)
    requires IsLowerName(h)
    ensures HostChars(h) && Lower(h) == h && IsCleanHost(Lower(h))
  {
    forall i | 0 <= i < |h| ensures !IsAsciiUpper(h[i]) {
      assert h[i] in h;
    }
    LowerNoUpper(h);
  }

  /** Labels that are non-empty and not hyphen-ended join to a clean hostname. */
  lemma CleanLabels(labels: seq<string>)
    requires |labels| >= 1
    requires forall i :: 0 <= i < |labels| ==>
      HostChars(labels[i]) && '.' !in labels[i] && labels[i] != [] && labels[i][0] != '-' && labels[i][|labels[i]| - 1] != '-'
    ensures IsCleanHost(Join(".", labels))
  {
    JoinHostChars(labels);
    SplitOnJoin(labels, '.');
    assert SplitOn(Join(".", labels), '.') == labels;
  }

  /** A letter-only label. */
  predicate IsWord(w: string)
  {
    w != [] && forall c :: c in w ==> IsAsciiLower(c)
  }

  lemma WordLabels(labels: seq<string>)
    requires |labels| >= 1 && forall i :: 0 <= i < |labels| ==> IsWord(labels[i])
    ensures IsLowerName(Join(".", labels))
  {
    forall i | 0 <= i < |labels|
      ensures HostChars(labels[i]) && '.' !in labels[i] && labels[i][0] != '-' && labels[i][|labels[i]| - 1] != '-'
    {
      var w := labels[i];
      assert w[0] in w && w[|w| - 1] in w;
    }
    CleanLabels(labels);
    JoinHostChars(labels);
    var h := Join(".", labels);
    assert h[0] == labels[0][0] by { JoinStart(labels); }
    assert labels[0][0] in labels[0];
    JoinNoUpper(labels);
  }

  /** A join starts with the first part when that is not empty. */
  lemma JoinStart(labels: seq<string>)
    requires |labels| >= 1 && labels[0] != []
    ensures Join(".", labels) != [] && Join(".", labels)[0] == labels[0][0]
  {
  }

  lemma {:induction false} JoinNoUpper(labels: seq<string>)
    requires forall i :: 0 <= i < |labels| ==> IsWord(labels[i])
    ensures forall c :: c in Join(".", labels) ==> !IsAsciiUpper(c)
  {
    if |labels| > 1 {
      JoinNoUpper(labels[1..]);
      assert Join(".", labels) == labels[0] + "." + Join(".", labels[1..]);
      assert IsWord(labels[0]);
    } else if |labels| == 1 {
      assert IsWord(labels[0]);
    }
  }

  /** A URL with a placeholder in the path of a fixed, already clean host gives the URL as formatted. */
  lemma PlaceholderPathTemplate(lead: string, scheme: string, host: string, pathPrefix: string, key: string,
                                value: string, suffix: string, subst: map<string, string>, idna: string -> string)
    requires IsScheme(scheme) && lead == scheme + "://" && Lower(scheme) == scheme
    requires key in subst && subst[key] == value
    requires '%' !in lead + (host + pathPrefix) && ')' !in key && '%' !in suffix
    requires IsLowerName(host)
    requires pathPrefix != [] && pathPrefix[0] == '/'
    requires Avoids(pathPrefix + value + suffix, UNSAFE + {'?', '#'})
    ensures FromTemplate(lead + (host + pathPrefix) + "%(" + key + ")s" + suffix, subst, idna)
      == Mirror(lead + host + pathPrefix + value + suffix)
  {
    var path := pathPrefix + value + suffix;
    PlaceholderFilled(lead, host + pathPrefix, key, suffix, subst);
    PathRegroup(lead, host, pathPrefix, value, suffix);
    LowerNameFacts(host);
    assert (pathPrefix + value + suffix)[0] == '/';
    LeadNamedUrl(lead, scheme, host, path, idna);
    TemplateGives(lead + (host + pathPrefix) + "%(" + key + ")s" + suffix, subst, idna,
                  lead + (host + pathPrefix) + value + suffix, lead + host + pathPrefix + value + suffix);
  }

  lemma PathRegroup(lead: string, netloc: string, pathPrefix: string, value: string, suffix: string)
    ensures lead + (netloc + pathPrefix) + value + suffix == lead + netloc + (pathPrefix + value + suffix)
    ensures lead + netloc + (pathPrefix + value + suffix) == lead + netloc + pathPrefix + value + suffix
  {
  }

  /** A URL with a placeholder in the path of an IP address host (and a port) gives the URL as formatted. */
  lemma PlaceholderIPTemplate(lead: string, scheme: string, netloc: string, host: string, port: Option<nat>,
                              pathPrefix: string, key: string, value: string, suffix: string,
                              subst: map<string, string>, idna: string -> string)
    requires IsScheme(scheme) && lead == scheme + "://"
    requires netloc == host + PortText(port)
    requires key in subst && subst[key] == value
    requires '%' !in lead + (netloc + pathPrefix) && ')' !in key && '%' !in suffix
    requires Avoids(host, UNSAFE + {'/', '?', '#', '@', '[', ']', ':'}) && IsIPAddress(UrlHostname(host))
    requires port.Some? ==> port.value <= 65535
    requires pathPrefix != [] && pathPrefix[0] == '/'
    requires Avoids(pathPrefix + value + suffix, UNSAFE + {'?', '#'})
    ensures FromTemplate(lead + (netloc + pathPrefix) + "%(" + key + ")s" + suffix, subst, idna)
      == Mirror(lead + netloc + pathPrefix + value + suffix)
  {
    var path := pathPrefix + value + suffix;
    PlaceholderFilled(lead, netloc + pathPrefix, key, suffix, subst);
    PathRegroup(lead, netloc, pathPrefix, value, suffix);
    NetlocRegroup(lead, scheme, host, PortText(port), path);
    assert path[0] == '/';
    SanitizeIPUrl(scheme, host, port, path, idna);
    TemplateGives(lead + (netloc + pathPrefix) + "%(" + key + ")s" + suffix, subst, idna,
                  lead + (netloc + pathPrefix) + value + suffix, lead + netloc + pathPrefix + value + suffix);
  }

  lemma NetlocRegroup(lead: string, scheme: string, host: string, portText: string, path: string)
    requires lead == scheme + "://"
    ensures lead + (host + portText) + path == scheme + "://" + host + portText + path
  {
  }

  /** The same for a bracketed IP address. */
  lemma PlaceholderBracketedTemplate(lead: string, scheme: string, netloc: string, addr: string,
                                     pathPrefix: string, key: string, value: string, suffix: string,
                                     subst: map<string, string>, idna: string -> string)
    requires IsScheme(scheme) && lead == scheme + "://"
    requires netloc == "[" + addr + "]"
    requires key in subst && subst[key] == value
    requires '%' !in lead + (netloc + pathPrefix) && ')' !in key && '%' !in suffix
    requires Avoids(addr, UNSAFE + {'/', '?', '#', '@', '[', ']'}) && IsIPAddress(UrlHostname(addr))
    requires pathPrefix != [] && pathPrefix[0] == '/'
    requires Avoids(pathPrefix + value + suffix, UNSAFE + {'?', '#'})
    ensures FromTemplate(lead + (netloc + pathPrefix) + "%(" + key + ")s" + suffix, subst, idna)
      == Mirror(lead + netloc + pathPrefix + value + suffix)
  {
    var path := pathPrefix + value + suffix;
    PlaceholderFilled(lead, netloc + pathPrefix, key, suffix, subst);
    PathRegroup(lead, netloc, pathPrefix, value, suffix);
    assert lead + netloc + path == scheme + "://[" + addr + "]" + path;
    assert path[0] == '/';
    AvoidsFewer(path, UNSAFE + {'?', '#'}, UNSAFE);
    SanitizeBracketedUrl(scheme, addr, path, idna);
    TemplateGives(lead + (netloc + pathPrefix) + "%(" + key + ")s" + suffix, subst, idna,
                  lead + (netloc + pathPrefix) + value + suffix, lead + netloc + pathPrefix + value + suffix);
  }

  /** A hostname without `%` or upper-case letters is its own `hostname`. */
  lemma HostnameAsWritten(h: string)
    requires '%' !in h && forall i :: 0 <= i < |h| ==> !IsAsciiUpper(h[i])
    ensures UrlHostname(h) == h
  {
    UrlHostnamePlain(h);
    LowerNoUpper(h);
  }

  /** A template put together from its lead, the text before the placeholder, and the rest. */
  lemma TemplateText(t: string, before: string, after: string, lead: string, mid: string, key: string, suffix: string)
    requires t == before + after && before == lead + mid && after == "%(" + key + ")s" + suffix
    ensures t == lead + mid + "%(" + key + ")s" + suffix
  {
  }

  lemma RegionPlaceholder()
    ensures "%(region)s" == "%(" + "region" + ")s"
  {
  }

  /** A template assembled from short literal pieces, regrouped as the placeholder lemmas take it. */
  lemma TemplateChain(lead: string, mid: string, key: string, a: string, b: string, path: string)
    ensures lead + mid + ("%(" + key + ")s") + a + b + path == lead + mid + "%(" + key + ")s" + ((a + b) + path)
  {
  }

  lemma RegionPathTail()
    ensures "%(region)s/ubuntu" == "%(" + "region" + ")s" + "/ubuntu"
  {
  }

  /** A region value that can stand in a URL path: nothing `urlsplit` removes, and no query or fragment. */
  lemma PathValue(r: string, suffix: string)
    requires Avoids(r, UNSAFE + {'?', '#'}) && Avoids(suffix, UNSAFE + {'?', '#'})
    ensures Avoids("/" + r + suffix, UNSAFE + {'?', '#'})
  {
    assert Avoids("/", UNSAFE + {'?', '#'});
    AvoidsConcat("/", r, UNSAFE + {'?', '#'});
    AvoidsConcat("/" + r, suffix, UNSAFE + {'?', '#'});
  }

  lemma SlashPieces()
    ensures "/" != [] && "/"[0] == '/' && '%' !in "/ubuntu"
  {
  }

  lemma ExampleComHost()
    ensures IsLowerName("www.example.com")
  {
    var labels := ["www", "example", "com"];
    assert Join(".", labels) == "www.example.com";
    assert IsWord(labels[0]) && IsWord(labels[1]) && IsWord(labels[2]);
    WordLabels(labels);
  }

  lemma ExamplePathTemplateText()
    ensures "http://www.example.com/%(region)s/ubuntu" == "http://" + ("www.example.com" + "/") + "%(" + "region" + ")s" + "/ubuntu"
  {
  }

  lemma ExamplePathLead()
    ensures '%' !in "http://" + ("www.example.com" + "/")
  {
  }

  lemma ExamplePathUrl()
    ensures "http://" + "www.example.com" + "/" == "http://www.example.com/"
  {
  }

  lemma ExamplePathTemplate(d: DataSource, allow: bool, idna: string -> string)
    requires d.region != "" && Avoids(d.region, UNSAFE + {'?', '#'})
    ensures FromTemplate("http://www.example.com/%(region)s/ubuntu", Substitutions(Some(d), allow), idna)
      == Mirror("http://www.example.com/" + d.region + "/ubuntu")
  {
    RegionValue(d, allow);
    HttpPieces();
    SlashPieces();
    ExampleComHost();
    ExamplePathTemplateText();
    ExamplePathLead();
    ExamplePathUrl();
    RgPieces();
    PathValue(d.region, "/ubuntu");
    PlaceholderPathTemplate("http://", "http", "www.example.com", "/", "region", d.region, "/ubuntu",
                            Substitutions(Some(d), allow), idna);
  }

  /** Non-ASCII parts of a URL other than its hostname are kept: `ТεЅТ̣` stays in the path. */
  lemma NonAsciiPathKept(r: string, idna: string -> string)
    requires r != "" && Avoids(r, UNSAFE + {'?', '#'})
    ensures ResolveMirrors(PrimarySearch(["http://www.example.com/%(region)s/ubuntu"]), Some(DataSource("", r, "ec2")), true, UrlList, idna)
      == Some([("primary", UrlList(["http://www.example.com/" + r + "/ubuntu"]))])
  {
    var ds := DataSource("", r, "ec2");
    ExamplePathTemplate(ds, true, idna);
    PrimaryFromOne("http://www.example.com/%(region)s/ubuntu", ds, idna, "http://www.example.com/" + r + "/ubuntu");
  }

  lemma IPv4Avoids()
    ensures Avoids("192.168.1.1", UNSAFE + {'/', '?', '#', '@', '[', ']', ':'})
  {
  }

  lemma IPv4Joined()
    ensures Join(".", ["192", "168", "1", "1"]) == "192.168.1.1"
  {
  }

  lemma IPv4Octets()
    ensures var parts := ["192", "168", "1", "1"]; |parts| == 4 && forall i :: 0 <= i < 4 ==> IsIPv4Octet(parts[i])
  {
    var parts := ["192", "168", "1", "1"];
    assert "192"[..2] == "19" && "19"[..1] == "1" && "1"[..0] == "";
    assert ParseDecimal("192") == 192;
    assert "168"[..2] == "16" && "16"[..1] == "1";
    assert ParseDecimal("168") == 168;
    assert IsIPv4Octet(parts[0]);
    assert IsIPv4Octet(parts[1]);
    assert IsIPv4Octet(parts[2]) && IsIPv4Octet(parts[3]);
  }

  lemma IPv4Plain()
    ensures '%' !in "192.168.1.1" && forall i :: 0 <= i < |"192.168.1.1"| ==> !IsAsciiUpper("192.168.1.1"[i])
  {
  }

  lemma IPv4Host()
    ensures IsIPAddress(UrlHostname("192.168.1.1"))
  {
    IPv4Joined();
    IPv4Octets();
    IPv4Parts(["192", "168", "1", "1"]);
    IPv4Plain();
    HostnameAsWritten("192.168.1.1");
  }

  lemma IPv4Parts(parts: seq<string>)
    requires |parts| == 4 && forall i :: 0 <= i < 4 ==> IsIPv4Octet(parts[i])
    ensures IsIPv4(Join(".", parts))
  {
    forall i | 0 <= i < 4 ensures '.' !in parts[i] {
      assert IsIPv4Octet(parts[i]);
      assert forall c :: c in parts[i] ==> IsAsciiDigit(c);
    }
    SplitOnJoin(parts, '.');
  }

  lemma IPv4TemplateText()
    ensures "http://192.168.1.1:8080/%(region)s/ubuntu" == "http://" + ("192.168.1.1:8080" + "/") + "%(" + "region" + ")s" + "/ubuntu"
  {
  }

  lemma IPv4Lead()
    ensures '%' !in "http://" + ("192.168.1.1:8080" + "/")
  {
  }

  lemma IPv4Url()
    ensures "http://" + "192.168.1.1:8080" + "/" == "http://192.168.1.1:8080/"
  {
  }

  lemma IPv4Netloc()
    ensures "192.168.1.1:8080" == "192.168.1.1" + PortText(Some(8080))
  {
    assert DecimalString(8080) == "8080";
  }

  lemma IPv4Template(d: DataSource, allow: bool, idna: string -> string)
    requires d.region != "" && Avoids(d.region, UNSAFE + {'?', '#'})
    ensures FromTemplate("http://192.168.1.1:8080/%(region)s/ubuntu", Substitutions(Some(d), allow), idna)
      == Mirror("http://192.168.1.1:8080/" + d.region + "/ubuntu")
  {
    RegionValue(d, allow);
    HttpPieces();
    SlashPieces();
    IPv4Avoids();
    IPv4Host();
    IPv4TemplateText();
    IPv4Lead();
    IPv4Url();
    IPv4Netloc();
    RgPieces();
    PathValue(d.region, "/ubuntu");
    PlaceholderIPTemplate("http://", "http", "192.168.1.1:8080", "192.168.1.1", Some(8080), "/", "region", d.region, "/ubuntu",
                          Substitutions(Some(d), allow), idna);
  }

  /** IPv4 addresses are kept as they are, port included. */
  lemma IPv4Kept(r: string, idna: string -> string)
    requires r != "" && Avoids(r, UNSAFE + {'?', '#'})
    ensures ResolveMirrors(PrimarySearch(["http://192.168.1.1:8080/%(region)s/ubuntu"]), Some(DataSource("", r, "ec2")), true, UrlList, idna)
      == Some([("primary", UrlList(["http://192.168.1.1:8080/" + r + "/ubuntu"]))])
  {
    var ds := DataSource("", r, "ec2");
    IPv4Template(ds, true, idna);
    PrimaryFromOne("http://192.168.1.1:8080/%(region)s/ubuntu", ds, idna, "http://192.168.1.1:8080/" + r + "/ubuntu");
  }

  lemma IPv6Avoids()
    ensures Avoids("2001:67c:1360:8001::23", UNSAFE + {'/', '?', '#', '@', '[', ']'})
  {
  }

  lemma IPv6Shape()
    ensures IsIPv6("2001:67c:1360:8001::23")
  {
    var h := "2001:67c:1360:8001::23";
    assert h[4] == ':' && h[8] == ':';
  }

  lemma IPv6Plain()
    ensures '%' !in "2001:67c:1360:8001::23"
    ensures forall i :: 0 <= i < |"2001:67c:1360:8001::23"| ==> !IsAsciiUpper("2001:67c:1360:8001::23"[i])
  {
  }

  lemma IPv6Host()
    ensures IsIPAddress(UrlHostname("2001:67c:1360:8001::23"))
  {
    IPv6Shape();
    IPv6Plain();
    HostnameAsWritten("2001:67c:1360:8001::23");
  }

  lemma IPv6TemplateText()
    ensures "http://[2001:67c:1360:8001::23]/%(region)s/ubuntu"
      == "http://" + ("[2001:67c:1360:8001::23]" + "/") + "%(" + "region" + ")s" + "/ubuntu"
  {
    IPv6TemplateHalves();
    IPv6TemplateLead();
    RegionPathTail();
    TemplateText("http://[2001:67c:1360:8001::23]/%(region)s/ubuntu", "http://[2001:67c:1360:8001::23]/", "%(region)s/ubuntu",
                 "http://", "[2001:67c:1360:8001::23]" + "/", "region", "/ubuntu");
  }

  lemma IPv6TemplateHalves()
    ensures "http://[2001:67c:1360:8001::23]/%(region)s/ubuntu" == "http://[2001:67c:1360:8001::23]/" + "%(region)s/ubuntu"
  {
  }

  lemma IPv6TemplateLead()
    ensures "http://[2001:67c:1360:8001::23]/" == "http://" + ("[2001:67c:1360:8001::23]" + "/")
  {
  }

  lemma IPv6Netloc()
    ensures "[2001:67c:1360:8001::23]" == "[" + "2001:67c:1360:8001::23" + "]"
  {
  }

  lemma IPv6Lead()
    ensures '%' !in "http://" + ("[2001:67c:1360:8001::23]" + "/")
  {
  }

  lemma IPv6Url()
    ensures "http://" + "[2001:67c:1360:8001::23]" + "/" == "http://[2001:67c:1360:8001::23]/"
  {
  }

  lemma IPv6Template(d: DataSource, allow: bool, idna: string -> string)
    requires d.region != "" && Avoids(d.region, UNSAFE + {'?', '#'})
    ensures FromTemplate("http://[2001:67c:1360:8001::23]/%(region)s/ubuntu", Substitutions(Some(d), allow), idna)
      == Mirror("http://[2001:67c:1360:8001::23]/" + d.region + "/ubuntu")
  {
    RegionValue(d, allow);
    HttpPieces();
    SlashPieces();
    IPv6Avoids();
    IPv6Host();
    IPv6TemplateText();
    IPv6Lead();
    IPv6Url();
    IPv6Netloc();
    RgPieces();
    PathValue(d.region, "/ubuntu");
    PlaceholderBracketedTemplate("http://", "http", "[2001:67c:1360:8001::23]", "2001:67c:1360:8001::23", "/", "region", d.region, "/ubuntu",
                                 Substitutions(Some(d), allow), idna);
  }

  /** IPv6 addresses are kept as they are. */
  lemma IPv6Kept(r: string, idna: string -> string)
    requires r != "" && Avoids(r, UNSAFE + {'?', '#'})
    ensures ResolveMirrors(PrimarySearch(["http://[2001:67c:1360:8001::23]/%(region)s/ubuntu"]), Some(DataSource("", r, "ec2")), true, UrlList, idna)
      == Some([("primary", UrlList(["http://[2001:67c:1360:8001::23]/" + r + "/ubuntu"]))])
  {
    var ds := DataSource("", r, "ec2");
    IPv6Template(ds, true, idna);
    PrimaryFromOne("http://[2001:67c:1360:8001::23]/%(region)s/ubuntu", ds, idna, "http://[2001:67c:1360:8001::23]/" + r + "/ubuntu");
  }

  /** A template whose formatted netloc has a lone bracket is dropped. */
  lemma PlaceholderUnbalancedTemplate(lead: string, scheme: string, key: string, value: string, hostSuffix: string,
                                      path: string, subst: map<string, string>, idna: string -> string)
    requires IsScheme(scheme) && lead == scheme + "://"
    requires key in subst && subst[key] == value
    requires '%' !in lead && ')' !in key && '%' !in hostSuffix + path
    requires Avoids(value + hostSuffix, UNSAFE + {'/', '?', '#'})
    requires ('[' in value + hostSuffix) != (']' in value + hostSuffix)
    requires path == [] || path[0] == '/'
    requires Avoids(path, UNSAFE)
    ensures FromTemplate(lead + "" + "%(" + key + ")s" + (hostSuffix + path), subst, idna) == Skipped
  {
    PlaceholderFilled(lead, "", key, hostSuffix + path, subst);
    Regroup(lead, "", value, hostSuffix, path);
    assert "" + value + hostSuffix == value + hostSuffix;
    SanitizeUnbalancedUrl(scheme, value + hostSuffix, path, idna);
  }

  lemma FilteredTemplateText()
    ensures "http://%(region)s.in.hostname/should/be/filtered"
      == "http://" + "" + "%(" + "region" + ")s" + (".in.hostname" + "/should/be/filtered")
  {
    FilteredSplit();
    RegionPlaceholder();
    AppendEmpty("http://");
    EmptyMidChain("http://", "region", ".in.hostname", "/should/be/filtered");
  }

  lemma FilteredSplit()
    ensures "http://%(region)s.in.hostname/should/be/filtered" == "http://%(region)s.in.hostname" + "/should/be/filtered"
    ensures "http://%(region)s.in.hostname" == "http://%(region)s" + ".in.hostname"
    ensures "http://%(region)s" == "http://" + "%(region)s"
  {
    FilteredSplit1();
    FilteredSplit2();
  }

  lemma FilteredSplit1()
    ensures "http://%(region)s.in.hostname/should/be/filtered" == "http://%(region)s.in.hostname" + "/should/be/filtered"
  {
  }

  lemma FilteredSplit2()
    ensures "http://%(region)s.in.hostname" == "http://%(region)s" + ".in.hostname"
  {
  }

  /** The same regrouping for a template with nothing between the lead and the placeholder. */
  lemma EmptyMidChain(lead: string, key: string, hostSuffix: string, path: string)
    requires lead + "" == lead
    ensures lead + ("%(" + key + ")s") + hostSuffix + path == lead + "" + "%(" + key + ")s" + (hostSuffix + path)
  {
  }

  lemma FilteredPieces()
    ensures '%' !in ".in.hostname" + "/should/be/filtered"
    ensures Avoids(".in.hostname", UNSAFE + {'/', '?', '#'}) && '[' !in ".in.hostname" && ']' !in ".in.hostname"
  {
  }

  lemma FilteredPath()
    ensures "/should/be/filtered"[0] == '/' && Avoids("/should/be/filtered", UNSAFE)
  {
  }

  /** A string with exactly one kind of bracket keeps that property when followed by bracket-free text. */
  lemma LoneBracketConcat(a: string, b: string)
    requires ('[' in a) != (']' in a) && '[' !in b && ']' !in b
    ensures ('[' in a + b) != (']' in a + b)
  {
    if '[' in a {
      var i :| 0 <= i < |a| && a[i] == '[';
      assert (a + b)[i] == '[';
      forall j | 0 <= j < |a + b| ensures (a + b)[j] != ']' {
        if j < |a| { assert (a + b)[j] == a[j]; } else { assert (a + b)[j] == b[j - |a|]; }
      }
    } else {
      var i :| 0 <= i < |a| && a[i] == ']';
      assert (a + b)[i] == ']';
      forall j | 0 <= j < |a + b| ensures (a + b)[j] != '[' {
        if j < |a| { assert (a + b)[j] == a[j]; } else { assert (a + b)[j] == b[j - |a|]; }
      }
    }
  }

  lemma FilteredTemplate(d: DataSource, allow: bool, idna: string -> string)
    requires d.region != "" && ('[' in d.region) != (']' in d.region) && Avoids(d.region, UNSAFE + {'/', '?', '#'})
    ensures FromTemplate("http://%(region)s.in.hostname/should/be/filtered", Substitutions(Some(d), allow), idna) == Skipped
  {
    RegionValue(d, allow);
    HttpPieces();
    RgPieces();
    FilteredTemplateText();
    FilteredPieces();
    FilteredPath();
    AvoidsConcat(d.region, ".in.hostname", UNSAFE + {'/', '?', '#'});
    LoneBracketConcat(d.region, ".in.hostname");
    PlaceholderUnbalancedTemplate("http://", "http", "region", d.region, ".in.hostname", "/should/be/filtered",
                                  Substitutions(Some(d), allow), idna);
  }

  lemma ButNotHost()
    ensures IsLowerName("but.not.in.the.path")
  {
    var labels := ["but", "not", "in", "the", "path"];
    assert Join(".", labels) == "but.not.in.the.path";
    assert IsWord(labels[0]) && IsWord(labels[1]) && IsWord(labels[2]);
    assert IsWord(labels[3]) && IsWord(labels[4]);
    WordLabels(labels);
  }

  lemma KeptTemplateText()
    ensures "http://but.not.in.the.path/%(region)s" == "http://" + ("but.not.in.the.path" + "/") + "%(" + "region" + ")s" + ""
  {
  }

  lemma KeptLead()
    ensures '%' !in "http://" + ("but.not.in.the.path" + "/") && '%' !in ""
  {
  }

  lemma KeptUrl()
    ensures "http://" + "but.not.in.the.path" + "/" == "http://but.not.in.the.path/"
  {
  }

  lemma KeptTemplate(d: DataSource, allow: bool, idna: string -> string)
    requires d.region != "" && Avoids(d.region, UNSAFE + {'?', '#'})
    ensures FromTemplate("http://but.not.in.the.path/%(region)s", Substitutions(Some(d), allow), idna)
      == Mirror("http://but.not.in.the.path/" + d.region)
  {
    RegionValue(d, allow);
    HttpPieces();
    SlashPieces();
    RgPieces();
    ButNotHost();
    KeptTemplateText();
    KeptLead();
    KeptUrl();
    PathValue(d.region, "");
    AppendEmpty("http://but.not.in.the.path/" + d.region);
    PlaceholderPathTemplate("http://", "http", "but.not.in.the.path", "/", "region", d.region, "",
                            Substitutions(Some(d), allow), idna);
  }

  /** Unparseable URLs are filtered out: `inv[lid` in the netloc drops the first template, not the second. */
  lemma UnparseableFiltered(r: string, idna: string -> string)
    requires r != "" && ('[' in r) != (']' in r) && Avoids(r, UNSAFE + {'/', '?', '#'})
    ensures ResolveMirrors(PrimarySearch(["http://%(region)s.in.hostname/should/be/filtered", "http://but.not.in.the.path/%(region)s"]),
                           Some(DataSource("", r, "ec2")), true, UrlList, idna)
      == Some([("primary", UrlList(["http://but.not.in.the.path/" + r]))])
  {
    var ds := DataSource("", r, "ec2");
    var subst := Substitutions(Some(ds), true);
    FilteredTemplate(ds, true, idna);
    AvoidsFewer(r, UNSAFE + {'/', '?', '#'}, UNSAFE + {'?', '#'});
    KeptTemplate(ds, true, idna);
    var u := "http://but.not.in.the.path/" + r;
    CandidatesTwo("http://%(region)s.in.hostname/should/be/filtered", "http://but.not.in.the.path/%(region)s", subst, idna, Skipped, u);
    OnlyPrimary(["http://%(region)s.in.hostname/should/be/filtered", "http://but.not.in.the.path/%(region)s"], ds, idna, [u]);
  }

  // ---------------------------------------------------------------------------
  // Characters replaced by hyphens

  /** `SECURITY_URL_CHARS`: the characters newer Pythons drop from URLs instead of keeping. */
  const SECURITY_URL_CHARS: string := "\n\r\t"

  /** The separators the test takes back out of the list. */
  const URL_SEPARATORS: string := ":./#?@[]"

  /**
   * The characters the test expects to be replaced: ASCII below DEL, not
   * letters, digits or hyphen, not the characters `urlsplit` removes, and not
   * the separators `:./#?@[]`.
   */
  predicate IsTestedInvalidChar(c: char)
  {
    c as int < 127 && !IsLdh(c) && c !in SECURITY_URL_CHARS && c !in URL_SEPARATORS
  }

  /**
   * `INVALID_URL_CHARS`: every code point below 127 that is neither LDH nor
   * a security character, in ascending order, then each separator removed
   * with `list.remove` (which finds it, so no `ValueError` is raised).
   */
  method InvalidUrlChars() returns (chars: seq<char>)
    ensures forall c :: c in chars <==> IsTestedInvalidChar(c)
    ensures forall i, j :: 0 <= i < j < |chars| ==> chars[i] < chars[j]
  {
    chars := [];
    var x := 0;
    while x < 127
      invariant 0 <= x <= 127
      invariant forall c :: c in chars <==> c as int < x && !IsLdh(c) && c !in SECURITY_URL_CHARS
      invariant forall i, j :: 0 <= i < j < |chars| ==> chars[i] < chars[j]
      invariant forall i :: 0 <= i < |chars| ==> chars[i] as int < x
    {
      var c := x as char;
      if !IsLdh(c) && c !in SECURITY_URL_CHARS {
        chars := chars + [c];
      }
      x := x + 1;
    }
    var k := 0;
    while k < |URL_SEPARATORS|
      invariant 0 <= k <= |URL_SEPARATORS|
      invariant forall c :: c in chars <==>
        c as int < 127 && !IsLdh(c) && c !in SECURITY_URL_CHARS && c !in URL_SEPARATORS[..k]
      invariant forall i, j :: 0 <= i < j < |chars| ==> chars[i] < chars[j]
    {
      var sep := URL_SEPARATORS[k];
      assert sep !in URL_SEPARATORS[..k];
      assert sep in chars;
      var i := 0;
      while chars[i] != sep
        invariant 0 <= i < |chars|
        invariant forall j :: 0 <= j < i ==> chars[j] != sep
        invariant sep in chars[i..]
        decreases |chars| - i
      {
        i := i + 1;
      }
      SortedRemove(chars, i);
      assert URL_SEPARATORS[..k + 1] == URL_SEPARATORS[..k] + [sep];
      chars := chars[..i] + chars[i + 1..];
      k := k + 1;
    }
    assert URL_SEPARATORS[..k] == URL_SEPARATORS;
  }

  /** Removing one element of a strictly ascending list keeps it ascending and drops exactly that element. */
  lemma SortedRemove(s: seq<char>, i: int)
    requires 0 <= i < |s|
    requires forall a, b :: 0 <= a < b < |s| ==> s[a] < s[b]
    ensures var r := s[..i] + s[i + 1..];
      (forall a, b :: 0 <= a < b < |r| ==> r[a] < r[b])
      && forall c :: c in r <==> c in s && c != s[i]
  {
    var r := s[..i] + s[i + 1..];
    assert forall a :: 0 <= a < |r| ==> r[a] == if a < i then s[a] else s[a + 1];
    forall c | c in s && c != s[i] ensures c in r {
      var a :| 0 <= a < |s| && s[a] == c;
      if a < i { assert r[a] == c; } else { assert r[a - 1] == c; }
    }
  }

  /** The region `fk<c>fake<c>1` of the test. */
  function InvalidCharRegion(c: char): string
  {
    "fk" + [c] + "fake" + [c] + "1"
  }

  lemma InvalidCharRegionChars(c: char)
    ensures InvalidCharRegion(c) == ['f', 'k', c, 'f', 'a', 'k', 'e', c, '1']
  {
  }

  /** The region is a named host for `urlsplit`, its `hostname` is itself, and it is ASCII. */
  lemma InvalidCharHost(c: char)
    requires IsTestedInvalidChar(c)
    ensures var h := InvalidCharRegion(c);
      Avoids(h, UNSAFE + {'/', '?', '#', '@', '[', ']', ':'}) && UrlHostname(h) == h && h != []
      && !IsIPAddress(h) && AllAscii(h)
  {
    InvalidCharAvoids(c);
    InvalidCharHostname(c);
    InvalidCharNotIP(c);
  }

  lemma InvalidCharAvoids(c: char)
    requires IsTestedInvalidChar(c)
    ensures Avoids(InvalidCharRegion(c), UNSAFE + {'/', '?', '#', '@', '[', ']', ':'}) && AllAscii(InvalidCharRegion(c))
  {
    InvalidCharRegionChars(c);
    assert c != '\n' && c != '\r' && c != '\t';
    assert c != ':' && c != '/' && c != '#' && c != '?' && c != '@' && c != '[' && c != ']';
  }

  lemma InvalidCharHostname(c: char)
    requires IsTestedInvalidChar(c)
    ensures UrlHostname(InvalidCharRegion(c)) == InvalidCharRegion(c)
  {
    var h := InvalidCharRegion(c);
    InvalidCharRegionChars(c);
    if c == '%' {
      FirstIndexOfAt("fk", {'%'}, h[2..]);
      assert "fk" + h[2..] == h;
      assert h[..2] == "fk";
    } else {
      assert '%' !in h;
      assert forall i :: 0 <= i < |h| ==> !IsAsciiUpper(h[i]);
      HostnameAsWritten(h);
    }
  }

  lemma InvalidCharNotIP(c: char)
    requires IsTestedInvalidChar(c)
    ensures !IsIPAddress(InvalidCharRegion(c))
  {
    var h := InvalidCharRegion(c);
    InvalidCharRegionChars(c);
    assert c != ':';
    assert ':' !in h;
    NotIPWithLetter(h, 0);
  }

  /** Every character of the region that is not a host character becomes a hyphen: `fk-fake-1`. */
  lemma InvalidCharReplacement(c: char)
    requires IsTestedInvalidChar(c)
    ensures ReplaceInvalid(InvalidCharRegion(c)) == "fk-fake-1"
  {
    var h := InvalidCharRegion(c);
    InvalidCharRegionChars(c);
    assert !IsHostChar(c);
    var r := ReplaceInvalid(h);
    assert r == ['f', 'k', '-', 'f', 'a', 'k', 'e', '-', '1'];
  }

  lemma FkFakeClean()
    ensures IsCleanHost("fk-fake-1")
  {
    assert HostChars("fk-fake-1") && '.' !in "fk-fake-1";
    SingleLabelClean("fk-fake-1");
  }

  /** Sanitising the region gives `fk-fake-1`. */
  lemma InvalidCharSanitized(c: char, idna: string -> string)
    requires IsTestedInvalidChar(c)
    ensures SanitizeHost(InvalidCharRegion(c), idna) == "fk-fake-1"
  {
    InvalidCharHost(c);
    InvalidCharReplacement(c);
    FkFakeClean();
    CleanHostFixed("fk-fake-1", idna);
    HostCharsFixed("fk-fake-1");
  }

  /** `<lead><value><path>` as the parts of a URL without a port. */
  lemma BareHostUrl(lead: string, scheme: string, host: string, path: string)
    requires lead == scheme + "://"
    ensures lead + "" + host + path == scheme + "://" + host + PortText(None) + path
  {
    NoPortUrl(scheme, host, path);
  }

  lemma BareTemplateText()
    ensures "http://%(region)s/ubuntu" == "http://" + "" + "%(" + "region" + ")s" + "/ubuntu"
  {
  }

  lemma FkFakeUrl()
    ensures "http" + "://" + "fk-fake-1" + "/ubuntu" == "http://fk-fake-1/ubuntu"
  {
  }

  lemma InvalidCharTemplate(c: char, d: DataSource, allow: bool, idna: string -> string)
    requires IsTestedInvalidChar(c) && d.region == InvalidCharRegion(c)
    ensures FromTemplate("http://%(region)s/ubuntu", Substitutions(Some(d), allow), idna) == Mirror("http://fk-fake-1/ubuntu")
  {
    var subst := Substitutions(Some(d), allow);
    var h := d.region;
    RegionValue(d, allow);
    HttpPieces();
    RgPieces();
    BareTemplateText();
    PlaceholderFilled("http://", "", "region", "/ubuntu", subst);
    BareHostUrl("http://", "http", h, "/ubuntu");
    InvalidCharHost(c);
    SanitizePlainUrl("http", h, None, "/ubuntu", idna);
    InvalidCharSanitized(c, idna);
    NoPortUrl("http", "fk-fake-1", "/ubuntu");
    FkFakeUrl();
    TemplateGives("http://%(region)s/ubuntu", subst, idna, "http://" + "" + h + "/ubuntu", "http://fk-fake-1/ubuntu");
  }

  /** Each non-LDH ASCII character the test lists is replaced by a hyphen: `fk<c>fake<c>1` gives `fk-fake-1`. */
  lemma InvalidCharReplaced(c: char, idna: string -> string)
    requires IsTestedInvalidChar(c)
    ensures ResolveMirrors(PrimarySearch(["http://%(region)s/ubuntu"]), Some(DataSource("", InvalidCharRegion(c), "ec2")), true, UrlList, idna)
      == Some([("primary", UrlList(["http://fk-fake-1/ubuntu"]))])
  {
    var ds := DataSource("", InvalidCharRegion(c), "ec2");
    InvalidCharTemplate(c, ds, true, idna);
    PrimaryFromOne("http://%(region)s/ubuntu", ds, idna, "http://fk-fake-1/ubuntu");
  }

  // ---------------------------------------------------------------------------
  // Leading and trailing hyphens

  /** Host characters without upper-case letters. */
  predicate LowerHostChars(s: string)
  {
    forall c :: c in s ==> IsHostChar(c) && !IsAsciiUpper(c)
  }

  lemma LowerHostConcat(a: string, v: string, b: string)
    requires LowerHostChars(a) && LowerHostChars(v) && LowerHostChars(b)
    ensures LowerHostChars(a + v + b)
  {
  }

  /** A host of lower-case host characters is its own `hostname` and can stand in a netloc. */
  lemma LowerHostFacts(h: string)
    requires LowerHostChars(h)
    ensures HostChars(h) && Avoids(h, UNSAFE + {'/', '?', '#', '@', '[', ']', ':'}) && UrlHostname(h) == h
  {
    HostCharsAvoid(h);
    AvoidsFewer(h, UNSAFE + {'/', '?', '#', '@', '[', ']', ':', '%'}, UNSAFE + {'/', '?', '#', '@', '[', ']', ':'});
    assert '%' !in h;
    forall i | 0 <= i < |h| ensures !IsAsciiUpper(h[i]) {
      assert h[i] in h;
    }
    HostnameAsWritten(h);
  }

  /** Joining `a`, `v` and the rest puts dots between them. */
  lemma JoinMiddle(a: string, v: string, rest: seq<string>)
    requires |rest| >= 1
    ensures Join(".", [a, v] + rest) == (a + ".") + v + ("." + Join(".", rest))
  {
    var parts := [a, v] + rest;
    var tail := [v] + rest;
    assert parts[0] == a && parts[1..] == tail;
    assert Join(".", parts) == a + "." + Join(".", tail);
    assert tail[0] == v && tail[1..] == rest;
    assert Join(".", tail) == v + "." + Join(".", rest);
    DotRegroup(a, v, Join(".", rest));
  }

  lemma DotRegroup(a: string, v: string, j: string)
    ensures a + "." + (v + "." + j) == (a + ".") + v + ("." + j)
  {
  }

  lemma HyphenLiterals()
    ensures "-lead-ing" + "." == "-lead-ing." && "." + Join(".", ["trail-ing-", "example", "com"]) == ".trail-ing-.example.com"
  {
  }

  lemma StrippedLiterals()
    ensures "lead-ing" + "." == "lead-ing." && "." + Join(".", ["trail-ing", "example", "com"]) == ".trail-ing.example.com"
  {
    JoinThree("trail-ing", "example", "com");
    StrippedTailPieces();
    StrippedTailSplit();
    DotJoinRegroup("trail-ing", "example" + "." + "com");
  }

  lemma DotJoinRegroup(a: string, b: string)
    ensures "." + (a + "." + b) == ("." + a) + ("." + b)
  {
  }

  lemma StrippedTailPieces()
    ensures "example" + "." + "com" == "example.com" && "." + "example.com" == ".example.com"
    ensures "." + "trail-ing" == ".trail-ing"
  {
  }

  lemma StrippedTailSplit()
    ensures ".trail-ing.example.com" == ".trail-ing" + ".example.com"
  {
  }

  lemma HyphenLabelChars()
    ensures LowerHostChars("-lead-ing.") && LowerHostChars(".trail-ing-.example.com")
    ensures "-lead-ing."[1] == 'l' && |"-lead-ing."| > 1
  {
  }

  lemma HyphenLabelsPieces()
    ensures var rest := ["trail-ing-", "example", "com"];
      forall i :: 0 <= i < |rest| ==> HostChars(rest[i]) && '.' !in rest[i]
    ensures HostChars("-lead-ing") && '.' !in "-lead-ing"
  {
  }

  lemma StripLeadIng()
    ensures Strip("-lead-ing", '-') == "lead-ing"
  {
    assert "-lead-ing" == ['-'] + "lead-ing";
    StripOneEach("lead-ing", '-');
  }

  lemma StripTrailIng()
    ensures Strip("trail-ing-", '-') == "trail-ing"
  {
    assert "trail-ing-" == "trail-ing" + ['-'];
    StripOneEach("trail-ing", '-');
  }

  lemma StripPlainLabels()
    ensures Strip("example", '-') == "example" && Strip("com", '-') == "com"
  {
    StripNoop("example", '-');
    StripNoop("com", '-');
  }

  /** The host the template gives for a region of lower-case LDH characters. */
  function HyphenHost(r: string): string
  {
    "-lead-ing." + r + ".trail-ing-.example.com"
  }

  function HyphenLabels(r: string): seq<string>
  {
    ["-lead-ing", r] + ["trail-ing-", "example", "com"]
  }

  lemma HyphenHostJoin(r: string)
    ensures HyphenHost(r) == Join(".", HyphenLabels(r))
  {
    JoinMiddle("-lead-ing", r, ["trail-ing-", "example", "com"]);
    HyphenLiterals();
  }

  lemma HyphenHostFacts(r: string)
    requires forall c :: c in r ==> IsLdh(c) && !IsAsciiUpper(c)
    ensures var h := HyphenHost(r);
      Avoids(h, UNSAFE + {'/', '?', '#', '@', '[', ']', ':'}) && UrlHostname(h) == h && h != [] && !IsIPAddress(h)
  {
    var h := HyphenHost(r);
    HyphenLabelChars();
    assert LowerHostChars(r);
    LowerHostConcat("-lead-ing.", r, ".trail-ing-.example.com");
    LowerHostFacts(h);
    assert h[1] == 'l';
    assert ':' !in h;
    NotIPWithLetter(h, 1);
  }

  /** Sanitising strips the hyphens at the ends of every label, the region's included. */
  lemma HyphenSanitized(r: string, idna: string -> string)
    requires forall c :: c in r ==> IsLdh(c) && !IsAsciiUpper(c)
    ensures SanitizeHost(HyphenHost(r), idna) == "lead-ing." + Strip(r, '-') + ".trail-ing.example.com"
  {
    var labels := HyphenLabels(r);
    HyphenHostJoin(r);
    HyphenLabelsPieces();
    assert HostChars(r) && '.' !in r;
    assert forall i :: 0 <= i < |labels| ==> HostChars(labels[i]) && '.' !in labels[i] by {
      assert labels[0] == "-lead-ing" && labels[1] == r;
      assert forall i :: 2 <= i < |labels| ==> labels[i] == ["trail-ing-", "example", "com"][i - 2];
    }
    SanitizeLabels(labels, idna);
    HyphenStripList(r);
    JoinMiddle("lead-ing", Strip(r, '-'), ["trail-ing", "example", "com"]);
    StrippedLiterals();
  }

  lemma HyphenStripList(r: string)
    ensures StripLabelList(HyphenLabels(r)) == ["lead-ing", Strip(r, '-')] + ["trail-ing", "example", "com"]
  {
    StripLeadIng();
    StripTrailIng();
    StripPlainLabels();
    StripFive("-lead-ing", r, "trail-ing-", "example", "com", "lead-ing", Strip(r, '-'), "trail-ing", "example", "com");
  }

  /** Stripping five labels one by one. */
  lemma StripFive(a: string, b: string, c: string, d: string, e: string, a': string, b': string, c': string, d': string, e': string)
    requires Strip(a, '-') == a' && Strip(b, '-') == b' && Strip(c, '-') == c' && Strip(d, '-') == d' && Strip(e, '-') == e'
    ensures StripLabelList([a, b] + [c, d, e]) == [a', b'] + [c', d', e']
  {
    var labels := [a, b] + [c, d, e];
    var out := [a', b'] + [c', d', e'];
    assert |labels| == 5 && |out| == 5;
    forall i | 0 <= i < 5 ensures Strip(labels[i], '-') == out[i] {
      if i == 0 { assert labels[0] == a && out[0] == a'; }
      else if i == 1 { assert labels[1] == b && out[1] == b'; }
      else if i == 2 { assert labels[2] == c && out[2] == c'; }
      else if i == 3 { assert labels[3] == d && out[3] == d'; }
      else { assert labels[4] == e && out[4] == e'; }
    }
    StripListOf(labels, out);
  }

  lemma StripListOf(labels: seq<string>, out: seq<string>)
    requires |labels| == |out| && forall i :: 0 <= i < |labels| ==> Strip(labels[i], '-') == out[i]
    ensures StripLabelList(labels) == out
  {
  }

  lemma HyphenTemplateText()
    ensures "http://-lead-ing.%(region)s.trail-ing-.example.com/ubuntu"
      == "http://" + "-lead-ing." + "%(" + "region" + ")s" + (".trail-ing-.example.com" + "/ubuntu")
  {
    HyphenTemplateSplit1();
    HyphenTemplateSplit2();
    HyphenTemplateSplit3();
    HyphenTemplateSplit4();
    HyphenTemplateSplit5();
    RegionPlaceholder();
    TemplateChain("http://", "-lead-ing.", "region", ".trail-ing-", ".example.com", "/ubuntu");
  }

  lemma HyphenTemplateSplit1()
    ensures "http://-lead-ing.%(region)s.trail-ing-.example.com/ubuntu" == "http://-lead-ing.%(region)s.trail-ing-.example.com" + "/ubuntu"
  {
  }

  lemma HyphenTemplateSplit2()
    ensures "http://-lead-ing.%(region)s.trail-ing-.example.com" == "http://-lead-ing.%(region)s.trail-ing-" + ".example.com"
  {
  }

  lemma HyphenTemplateSplit3()
    ensures "http://-lead-ing.%(region)s.trail-ing-" == "http://-lead-ing.%(region)s" + ".trail-ing-"
  {
  }

  lemma HyphenTemplateSplit4()
    ensures "http://-lead-ing.%(region)s" == "http://-lead-ing." + "%(region)s"
  {
  }

  lemma HyphenTemplateSplit5()
    ensures "http://-lead-ing." == "http://" + "-lead-ing." && ".trail-ing-.example.com" == ".trail-ing-" + ".example.com"
  {
  }

  lemma HyphenPieces()
    ensures '%' !in "http://" + "-lead-ing." && '%' !in ".trail-ing-.example.com" + "/ubuntu"
  {
  }

  lemma HyphenUrl()
    ensures "http" + "://" + "lead-ing." == "http://lead-ing."
    ensures ".trail-ing.example.com" + "/ubuntu" == ".trail-ing.example.com/ubuntu"
  {
  }

  lemma MiddleRegroup(lead: string, p: string, v: string, q: string, path: string)
    ensures lead + (p + v + q) + path == (lead + p) + v + (q + path)
  {
  }

  lemma HyphenTemplate(d: DataSource, allow: bool, idna: string -> string)
    requires d.region != "" && forall c :: c in d.region ==> IsLdh(c) && !IsAsciiUpper(c)
    ensures FromTemplate("http://-lead-ing.%(region)s.trail-ing-.example.com/ubuntu", Substitutions(Some(d), allow), idna)
      == Mirror("http://lead-ing." + Strip(d.region, '-') + ".trail-ing.example.com/ubuntu")
  {
    var subst := Substitutions(Some(d), allow);
    var r := d.region;
    var h := HyphenHost(r);
    var clean := "lead-ing." + Strip(r, '-') + ".trail-ing.example.com";
    RegionValue(d, allow);
    HttpPieces();
    RgPieces();
    HyphenTemplateText();
    HyphenPieces();
    PlaceholderFilled("http://", "-lead-ing.", "region", ".trail-ing-.example.com" + "/ubuntu", subst);
    Regroup("http://", "-lead-ing.", r, ".trail-ing-.example.com", "/ubuntu");
    NoPortUrl("http", h, "/ubuntu");
    HyphenHostFacts(r);
    SanitizePlainUrl("http", h, None, "/ubuntu", idna);
    HyphenSanitized(r, idna);
    NoPortUrl("http", clean, "/ubuntu");
    MiddleRegroup("http" + "://", "lead-ing.", Strip(r, '-'), ".trail-ing.example.com", "/ubuntu");
    HyphenUrl();
    TemplateGives("http://-lead-ing.%(region)s.trail-ing-.example.com/ubuntu", subst, idna,
                  "http://" + "-lead-ing." + r + (".trail-ing-.example.com" + "/ubuntu"),
                  "http://lead-ing." + Strip(r, '-') + ".trail-ing.example.com/ubuntu");
  }

  /** Hyphens at the ends of labels are stripped: `-some-region-` gives `lead-ing.some-region.trail-ing.example.com`. */
  lemma HyphensStripped(r: string, idna: string -> string)
    requires r != "" && forall c :: c in r ==> IsLdh(c) && !IsAsciiUpper(c)
    ensures ResolveMirrors(PrimarySearch(["http://-lead-ing.%(region)s.trail-ing-.example.com/ubuntu"]), Some(DataSource("", r, "ec2")), true, UrlList, idna)
      == Some([("primary", UrlList(["http://lead-ing." + Strip(r, '-') + ".trail-ing.example.com/ubuntu"]))])
  {
    var ds := DataSource("", r, "ec2");
    HyphenTemplate(ds, true, idna);
    PrimaryFromOne("http://-lead-ing.%(region)s.trail-ing-.example.com/ubuntu", ds, idna,
                   "http://lead-ing." + Strip(r, '-') + ".trail-ing.example.com/ubuntu");
  }

  /** The test's region: `-some-region-` strips to `some-region`. */
  lemma SomeRegionStripped()
    ensures Strip("-some-region-", '-') == "some-region"
  {
    assert "-some-region-" == ['-'] + "some-region" + ['-'];
    StripOneEach("some-region", '-');
  }

  // ---------------------------------------------------------------------------
  // Non-ASCII hostnames

  /** A region that is non-ASCII, has no ASCII upper-case letters, and has nothing that ends or splits a netloc. */
  predicate IsUnicodeLabel(r: string)
  {
    !AllAscii(r) && Avoids(r, UNSAFE + {'/', '?', '#', '@', '[', ']', ':', '%'})
    && forall i :: 0 <= i < |r| ==> !IsAsciiUpper(r[i])
  }

  /** The test's region `ТεЅТ̣` is one. */
  lemma TestUnicodeRegion()
    ensures IsUnicodeLabel("ТεЅТ̣")
  {
    assert !IsAscii("ТεЅТ̣"[0]);
  }

  /** The test's zone `fk-fake-1f` meets `Ec2RegionAlone` and `AvailabilityZoneAlone`, with region `fk-fake-1`. */
  lemma TestEc2Zone()
    ensures IsEc2Zone("fk-fake-1f") && IsLabelTail("fk-fake-1f")
    ensures "fk-fake-1f"[..|"fk-fake-1f"| - 1] == "fk-fake-1"
  {
    assert "fk-fake-1f"[3..8] == "fake-";
  }

  /** The test's zone `fake-fake-1f` meets `Ec2NeedsEc2Zone`: a label that is not EC2-shaped. */
  lemma TestNonEc2Zone()
    ensures IsLabelTail("fake-fake-1f") && !IsEc2Zone("fake-fake-1f")
  {
  }

  /** The test's regions `fk-fake-1` and `fake-region` meet `RegionAlone` and `TemplateOrderKept`. */
  lemma TestRegionLabels()
    ensures IsLabelTail("fk-fake-1") && IsLabelTail("fake-region")
  {
  }

  /** The test's region `inv[lid` meets `UnparseableFiltered`: one lone bracket, nothing `urlsplit` treats specially. */
  lemma TestUnparseableRegion()
    ensures "inv[lid" != "" && ('[' in "inv[lid") != (']' in "inv[lid")
    ensures Avoids("inv[lid", UNSAFE + {'/', '?', '#'})
  {
    assert "inv[lid"[3] == '[';
  }

  lemma NotAllAsciiConcat(a: string, v: string, b: string)
    requires !AllAscii(v)
    ensures !AllAscii(a + v + b)
  {
    var i :| 0 <= i < |v| && !IsAscii(v[i]);
    assert (a + v + b)[|a| + i] == v[i];
  }

  /** The template `<lead><prefix>%(key)s<hostSuffix><port><path>` with a non-ASCII value in the host. */
  lemma PlaceholderIdnaTemplate(lead: string, scheme: string, prefix: string, key: string, value: string,
                                hostSuffix: string, port: Option<nat>, portText: string, path: string,
                                subst: map<string, string>, idna: string -> string)
    requires portText == PortText(port)
    requires IsScheme(scheme) && lead == scheme + "://" && Lower(scheme) == scheme
    requires key in subst && subst[key] == value
    requires '%' !in lead + prefix && ')' !in key && '%' !in hostSuffix + (portText + path)
    requires prefix != [] && IsAsciiLetter(prefix[0])
    requires Avoids(prefix + value + hostSuffix, UNSAFE + {'/', '?', '#', '@', '[', ']', ':', '%'})
    requires !AllAscii(value)
    requires IsCleanHost(idna(Lower(prefix + value + hostSuffix)))
    requires port.Some? ==> port.value <= 65535
    requires path == [] || path[0] == '/'
    requires Avoids(path, UNSAFE + {'?', '#'})
    ensures FromTemplate(lead + prefix + "%(" + key + ")s" + (hostSuffix + (portText + path)), subst, idna)
      == Mirror(lead + idna(Lower(prefix + value + hostSuffix)) + portText + path)
  {
    var host := prefix + value + hostSuffix;
    var t := lead + prefix + "%(" + key + ")s" + (hostSuffix + (portText + path));
    PlaceholderFilled(lead, prefix, key, hostSuffix + (portText + path), subst);
    Regroup(lead, prefix, value, hostSuffix, portText + path);
    PortRegroup(lead, host, portText, path);
    NotAllAsciiConcat(prefix, value, hostSuffix);
    assert host[0] == prefix[0];
    SanitizeIdnaUrl(scheme, host, 0, port, path, idna);
    TemplateGives(t, subst, idna, lead + prefix + value + (hostSuffix + (portText + path)),
                  lead + idna(Lower(host)) + portText + path);
  }

  lemma PortRegroup(lead: string, host: string, portText: string, path: string)
    ensures lead + host + (portText + path) == lead + host + portText + path
  {
  }

  lemma IdnaPrefix()
    ensures "www.IDNA-" != [] && IsAsciiLetter("www.IDNA-"[0]) && '%' !in "http://" + "www.IDNA-" && ')' !in "region"
    ensures Avoids("www.IDNA-", UNSAFE + {'/', '?', '#', '@', '[', ']', ':', '%'})
  {
  }

  lemma IdnaSuffix(portText: string)
    requires '%' !in portText
    ensures Avoids(".com", UNSAFE + {'/', '?', '#', '@', '[', ']', ':', '%'})
    ensures '%' !in ".com" + (portText + "/ubuntu")
  {
  }

  lemma Port8080()
    ensures PortText(Some(8080)) == ":8080" && '%' !in ":8080"
  {
    assert DecimalString(8080) == "8080";
  }

  /** `Lower` of a literal, character by character. */
  lemma LowerLiteral(s: string, t: string)
    requires |s| == |t| && forall i :: 0 <= i < |s| ==> LowerChar(s[i]) == t[i]
    ensures Lower(s) == t
  {
  }

  lemma IdnaLower(r: string)
    requires forall i :: 0 <= i < |r| ==> !IsAsciiUpper(r[i])
    ensures Lower("www.IDNA-" + r + ".com") == "www.idna-" + r + ".com"
  {
    LowerConcat("www.IDNA-" + r, ".com");
    LowerConcat("www.IDNA-", r);
    LowerNoUpper(r);
    IdnaLowerPrefix();
    IdnaLowerSuffix();
  }

  lemma IdnaLowerPrefix()
    ensures Lower("www.IDNA-") == "www.idna-"
  {
    LowerLiteral("www.IDNA-", "www.idna-");
  }

  lemma IdnaLowerSuffix()
    ensures Lower(".com") == ".com"
  {
    LowerLiteral(".com", ".com");
  }

  /** The host of the IDNA templates can stand in a netloc. */
  lemma IdnaHostAvoids(r: string)
    requires IsUnicodeLabel(r)
    ensures Avoids("www.IDNA-" + r + ".com", UNSAFE + {'/', '?', '#', '@', '[', ']', ':', '%'})
  {
    IdnaPrefix();
    IdnaSuffix("");
    AvoidsConcat("www.IDNA-", r, UNSAFE + {'/', '?', '#', '@', '[', ']', ':', '%'});
    AvoidsConcat("www.IDNA-" + r, ".com", UNSAFE + {'/', '?', '#', '@', '[', ']', ':', '%'});
  }

  lemma IdnaTemplateText()
    ensures "http://www.IDNA-%(region)s.com/ubuntu" == "http://" + "www.IDNA-" + "%(" + "region" + ")s" + (".com" + ("" + "/ubuntu"))
  {
    IdnaSplit1();
    IdnaSplit2();
    IdnaSplit3();
    RegionPlaceholder();
    assert "" + "/ubuntu" == "/ubuntu";
    PieceTemplate("http://www.IDNA-%(region)s.com/ubuntu", "http://www.IDNA-%(region)s", ".com/ubuntu",
                  "http://www.IDNA-", "http://", "www.IDNA-", "region", ".com", "" + "/ubuntu");
  }

  lemma IdnaSplit1()
    ensures "http://www.IDNA-%(region)s.com/ubuntu" == "http://www.IDNA-%(region)s" + ".com/ubuntu"
  {
  }

  lemma IdnaSplit2()
    ensures "http://www.IDNA-%(region)s" == "http://www.IDNA-" + "%(region)s"
  {
  }

  lemma IdnaSplit3()
    ensures "http://www.IDNA-" == "http://" + "www.IDNA-"
  {
  }

  lemma IdnaPortTemplateText()
    ensures "http://www.IDNA-%(region)s.com:8080/ubuntu" == "http://" + "www.IDNA-" + "%(" + "region" + ")s" + (".com" + (":8080" + "/ubuntu"))
  {
    IdnaPortSplit1();
    IdnaSplit2();
    IdnaSplit3();
    RegionPlaceholder();
    IdnaPortTail();
    PieceTemplate("http://www.IDNA-%(region)s.com:8080/ubuntu", "http://www.IDNA-%(region)s", ".com:8080/ubuntu",
                  "http://www.IDNA-", "http://", "www.IDNA-", "region", ".com", ":8080" + "/ubuntu");
  }

  lemma IdnaPortSplit1()
    ensures "http://www.IDNA-%(region)s.com:8080/ubuntu" == "http://www.IDNA-%(region)s" + ".com:8080/ubuntu"
  {
  }

  lemma PortPath()
    ensures ":8080" + "/ubuntu" == ":8080/ubuntu"
  {
  }

  lemma Associate(a: string, b: string, c: string)
    ensures a + b + c == a + (b + c)
  {
  }

  lemma IdnaPortTail()
    ensures ".com:8080/ubuntu" == ".com" + (":8080" + "/ubuntu")
  {
  }

  /** The IDNA templates, filled in: the host goes to the encoder lower-cased, the port and path stay. */
  lemma IdnaTemplateGives(t: string, d: DataSource, allow: bool, port: Option<nat>, portText: string,
                          encoded: string, idna: string -> string)
    requires t == "http://" + "www.IDNA-" + "%(" + "region" + ")s" + (".com" + (portText + "/ubuntu"))
    requires port.Some? ==> port.value <= 65535
    requires portText == PortText(port) && '%' !in portText
    requires IsUnicodeLabel(d.region)
    requires idna("www.idna-" + d.region + ".com") == encoded && IsCleanHost(encoded)
    ensures FromTemplate(t, Substitutions(Some(d), allow), idna) == Mirror("http://" + encoded + portText + "/ubuntu")
  {
    assert d.region != "" by { assert !AllAscii(d.region); }
    RegionValue(d, allow);
    HttpPieces();
    IdnaPrefix();
    IdnaSuffix(portText);
    IdnaHostAvoids(d.region);
    IdnaLower(d.region);
    PlaceholderIdnaTemplate("http://", "http", "www.IDNA-", "region", d.region, ".com", port, portText, "/ubuntu",
                            Substitutions(Some(d), allow), idna);
  }

  /** A non-ASCII hostname is IDNA-encoded: `ТεЅТ̣` gives `www.xn--idna--4kd53hh6aba3q.com`. */
  lemma IdnaHostEncoded(r: string, encoded: string, idna: string -> string)
    requires IsUnicodeLabel(r)
    requires idna("www.idna-" + r + ".com") == encoded && IsCleanHost(encoded)
    ensures ResolveMirrors(PrimarySearch(["http://www.IDNA-%(region)s.com/ubuntu"]), Some(DataSource("", r, "ec2")), true, UrlList, idna)
      == Some([("primary", UrlList(["http://" + encoded + "/ubuntu"]))])
  {
    var ds := DataSource("", r, "ec2");
    IdnaTemplateText();
    IdnaTemplateGives("http://www.IDNA-%(region)s.com/ubuntu", ds, true, None, "", encoded, idna);
    AppendEmpty("http://" + encoded);
    PrimaryFromOne("http://www.IDNA-%(region)s.com/ubuntu", ds, idna, "http://" + encoded + "/ubuntu");
  }

  /** A non-ASCII hostname with a port is IDNA-encoded and keeps its port. */
  lemma IdnaHostWithPort(r: string, encoded: string, idna: string -> string)
    requires IsUnicodeLabel(r)
    requires idna("www.idna-" + r + ".com") == encoded && IsCleanHost(encoded)
    ensures ResolveMirrors(PrimarySearch(["http://www.IDNA-%(region)s.com:8080/ubuntu"]), Some(DataSource("", r, "ec2")), true, UrlList, idna)
      == Some([("primary", UrlList(["http://" + encoded + ":8080/ubuntu"]))])
  {
    var ds := DataSource("", r, "ec2");
    IdnaPortTemplateText();
    Port8080();
    IdnaTemplateGives("http://www.IDNA-%(region)s.com:8080/ubuntu", ds, true, Some(8080), ":8080", encoded, idna);
    PortPath();
    Associate("http://" + encoded, ":8080", "/ubuntu");
    PrimaryFromOne("http://www.IDNA-%(region)s.com:8080/ubuntu", ds, idna, "http://" + encoded + ":8080/ubuntu");
  }

  /** The encoding the test expects, `www.xn--idna--4kd53hh6aba3q.com`, is a clean hostname. */
  lemma TestIdnaEncodingClean()
    ensures IsCleanHost("www.xn--idna--4kd53hh6aba3q.com")
  {
    var labels := ["www", "xn--idna--4kd53hh6aba3q", "com"];
    IdnaEncodingJoin();
    IdnaPunycodeLabel();
    assert IsWord(labels[0]) && IsWord(labels[2]);
    forall i | 0 <= i < |labels|
      ensures HostChars(labels[i]) && '.' !in labels[i] && labels[i] != [] && labels[i][0] != '-' && labels[i][|labels[i]| - 1] != '-'
    {
      if i != 1 {
        var w := labels[i];
        assert w[0] in w && w[|w| - 1] in w;
      }
    }
    CleanLabels(labels);
  }

  lemma IdnaEncodingJoin()
    ensures Join(".", ["www", "xn--idna--4kd53hh6aba3q", "com"]) == "www.xn--idna--4kd53hh6aba3q.com"
  {
    JoinThree("www", "xn--idna--4kd53hh6aba3q", "com");
    IdnaEncodingPieces();
    IdnaEncodingPrefix();
    IdnaEncodingLabel();
    PiecesRegroup("www", ".", "xn--idna--", "4kd53hh6aba3q", "com");
  }

  lemma JoinThree(a: string, b: string, c: string)
    ensures Join(".", [a, b, c]) == a + "." + (b + "." + c)
  {
    var parts := [a, b, c];
    assert parts[1..] == [b, c] && [b, c][1..] == [c];
    assert Join(".", [b, c]) == b + "." + Join(".", [c]);
    assert Join(".", parts) == a + "." + Join(".", [b, c]);
  }

  lemma PiecesRegroup(a: string, dot: string, b1: string, b2: string, c: string)
    ensures a + dot + ((b1 + b2) + dot + c) == ((a + dot) + b1) + b2 + (dot + c)
  {
  }

  lemma IdnaEncodingPieces()
    ensures "www.xn--idna--4kd53hh6aba3q.com" == "www.xn--idna--4kd53hh6aba3q" + ".com"
    ensures "www.xn--idna--4kd53hh6aba3q" == "www.xn--idna--" + "4kd53hh6aba3q"
    ensures "." + "com" == ".com"
  {
  }

  lemma IdnaEncodingPrefix()
    ensures "www.xn--idna--" == "www" + "." + "xn--idna--"
  {
  }

  lemma IdnaEncodingLabel()
    ensures "xn--idna--4kd53hh6aba3q" == "xn--idna--" + "4kd53hh6aba3q"
  {
  }

  lemma IdnaPunycodeLabel()
    ensures var l := "xn--idna--4kd53hh6aba3q";
      HostChars(l) && '.' !in l && l != [] && l[0] != '-' && l[|l| - 1] != '-'
  {
  }

  /** A template split at its placeholder and at the end of the host, put together as the placeholder lemmas take it. */
  lemma PieceTemplate(t: string, front: string, back: string, head: string, lead: string, mid: string,
                      key: string, hostSuffix: string, rest: string)
    requires t == front + back && front == head + "%(region)s" && head == lead + mid
    requires "%(region)s" == "%(" + key + ")s" && back == hostSuffix + rest
    ensures t == lead + mid + "%(" + key + ")s" + (hostSuffix + rest)
  {
  }

  // ---------------------------------------------------------------------------
  // test_get_package_mirror_info_failsafe and
  // test_failsafe_used_if_all_search_results_filtered_out (no data source)

  /** A template that is a plain `<scheme>://<host>` URL with a lower-case scheme and host gives itself back. */
  lemma PlainNamedTemplate(lead: string, scheme: string, host: string, subst: map<string, string>, idna: string -> string)
    requires IsScheme(scheme) && lead == scheme + "://" && Lower(scheme) == scheme && '%' !in lead
    requires IsLowerName(host)
    ensures FromTemplate(lead + host, subst, idna) == Mirror(lead + host)
  {
    LowerNameFacts(host);
    assert '%' !in lead + host by {
      forall i | 0 <= i < |host| ensures host[i] != '%' {
        assert host[i] in host;
      }
    }
    FormatPlain(lead + host, subst);
    LeadNamedUrl(lead, scheme, host, "", idna);
    AppendEmpty(lead + host);
    TemplateGives(lead + host, subst, idna, lead + host + "", lead + host);
  }

  lemma HttpLead()
    ensures IsScheme("http") && "http://" == "http" + "://" && Lower("http") == "http" && '%' !in "http://"
  {
    HttpPieces();
  }

  /** A template that is a plain `http://<host>` URL gives itself back. */
  lemma PlainHostTemplate(host: string, subst: map<string, string>, idna: string -> string)
    requires IsLowerName(host)
    ensures FromTemplate("http://" + host, subst, idna) == Mirror("http://" + host)
  {
    HttpLead();
    PlainNamedTemplate("http://", "http", host, subst, idna);
  }

  lemma ValueAndOther()
    ensures IsLowerName("value") && IsLowerName("other")
    ensures "http://value" == "http://" + "value" && "http://other" == "http://" + "other"
  {
    ValueName();
    OtherName();
    ValueUrl();
    OtherUrl();
  }

  lemma ValueName()
    ensures IsLowerName("value")
  {
    assert Join(".", ["value"]) == "value";
    assert IsWord(["value"][0]);
    WordLabels(["value"]);
  }

  lemma OtherName()
    ensures IsLowerName("other")
  {
    assert Join(".", ["other"]) == "other";
    assert IsWord(["other"][0]);
    WordLabels(["other"]);
  }

  lemma ValueUrl()
    ensures "http://value" == "http://" + "value"
  {
  }

  lemma OtherUrl()
    ensures "http://other" == "http://" + "other"
  {
  }

  /** Without a data source nothing is offered for substitution. */
  lemma NoSubstitutions(allow: bool)
    ensures Substitutions(None, allow) == map[]
  {
  }

  /** The search loop, one more key. */
  lemma SearchAppend(results: Dict, search: seq<(string, seq<string>)>, name: string, templates: seq<string>,
                     subst: map<string, string>, filter: seq<string> -> Value, idna: string -> string, r: Dict)
    requires SearchResults(results, search, subst, filter, idna) == Some(r)
    ensures SearchResults(results, search + [(name, templates)], subst, filter, idna) == SearchStep(r, name, templates, subst, filter, idna)
  {
    var s := search + [(name, templates)];
    assert s[..|s| - 1] == search;
  }

  /** A new key whose one template gives a URL gets that URL, with the identity filter. */
  lemma StepWithOne(r: Dict, name: string, t: string, subst: map<string, string>, idna: string -> string, u: string)
    requires FromTemplate(t, subst, idna) == Mirror(u)
    requires name !in Keys(r)
    ensures SearchStep(r, name, [t], subst, UrlList, idna) == Some(r + [(name, UrlList([u]))])
  {
    CandidatesOne(t, subst, idna, u);
    assert Truthy(UrlList([u]));
  }

  /** Two search keys, each with one template that gives a URL, and no failsafe values. */
  lemma SearchTwoKeys(n1: string, t1: string, u1: string, n2: string, t2: string, u2: string,
                      subst: map<string, string>, idna: string -> string)
    requires FromTemplate(t1, subst, idna) == Mirror(u1) && FromTemplate(t2, subst, idna) == Mirror(u2)
    requires n1 != n2
    ensures SearchResults([], [(n1, [t1]), (n2, [t2])], subst, UrlList, idna) == Some([(n1, UrlList([u1])), (n2, UrlList([u2]))])
  {
    var first := [(n1, UrlList([u1]))];
    var s1 := [(n1, [t1])];
    SearchFirstKey(n1, t1, u1, subst, idna);
    assert Keys(first) == {n1} by {
      KeysCons(first[0], []);
      assert [first[0]] + [] == first;
    }
    SearchOneKey([], s1, first, n2, t2, u2, subst, idna);
    assert s1 + [(n2, [t2])] == [(n1, [t1]), (n2, [t2])];
    assert first + [(n2, UrlList([u2]))] == [(n1, UrlList([u1])), (n2, UrlList([u2]))];
  }

  /** The first search key, with nothing before it. */
  lemma SearchFirstKey(n: string, t: string, u: string, subst: map<string, string>, idna: string -> string)
    requires FromTemplate(t, subst, idna) == Mirror(u)
    ensures SearchResults([], [(n, [t])], subst, UrlList, idna) == Some([(n, UrlList([u]))])
  {
    assert SearchResults([], [], subst, UrlList, idna) == Some([]);
    SearchOneKey([], [], [], n, t, u, subst, idna);
    assert [] + [(n, [t])] == [(n, [t])] && [] + [(n, UrlList([u]))] == [(n, UrlList([u]))];
  }

  /** The search loop, one more key whose one template gives a URL. */
  lemma SearchOneKey(results: Dict, search: seq<(string, seq<string>)>, r: Dict, n: string, t: string, u: string,
                     subst: map<string, string>, idna: string -> string)
    requires SearchResults(results, search, subst, UrlList, idna) == Some(r)
    requires FromTemplate(t, subst, idna) == Mirror(u) && n !in Keys(r)
    ensures SearchResults(results, search + [(n, [t])], subst, UrlList, idna) == Some(r + [(n, UrlList([u]))])
  {
    SearchAppend(results, search, n, [t], subst, UrlList, idna, r);
    StepWithOne(r, n, t, subst, idna, u);
  }

  /** `search` values are used when present: each key gets its list of candidates. */
  lemma SearchValuesUsed(h1: string, h2: string, allow: bool, idna: string -> string)
    requires IsLowerName(h1) && IsLowerName(h2)
    ensures ResolveMirrors(MirrorInfo([], [("primary", ["http://" + h1]), ("security", ["http://" + h2])]), None, allow, UrlList, idna)
      == Some([("primary", UrlList(["http://" + h1])), ("security", UrlList(["http://" + h2]))])
  {
    var subst := Substitutions(None, allow);
    var u1, u2 := "http://" + h1, "http://" + h2;
    PlainHostTemplate(h1, subst, idna);
    PlainHostTemplate(h2, subst, idna);
    assert CopyFailsafe([]) == [];
    SearchTwoKeys("primary", u1, u1, "security", u2, u2, subst, idna);
  }

  /** The test's values: `{"primary": ["http://value"], "security": ["http://other"]}`. */
  lemma TestSearchValuesUsed(allow: bool, idna: string -> string)
    ensures ResolveMirrors(MirrorInfo([], [("primary", ["http://value"]), ("security", ["http://other"])]), None, allow, UrlList, idna)
      == Some([("primary", UrlList(["http://value"])), ("security", UrlList(["http://other"]))])
  {
    ValueAndOther();
    SearchValuesUsed("value", "other", allow, idna);
  }

  /** `failsafe` values are used when present and nothing is searched. */
  lemma TestFailsafeValuesUsed(allow: bool, filter: seq<string> -> Value, idna: string -> string)
    ensures ResolveMirrors(MirrorInfo([("primary", VStr("http://value")), ("security", VStr("http://other"))], []), None, allow, filter, idna)
      == Some([("primary", VStr("http://value")), ("security", VStr("http://other"))])
  {
    var failsafe := [("primary", VStr("http://value")), ("security", VStr("http://other"))];
    assert UniqueKeys(failsafe);
    ResolveFailsafeOnly(failsafe, None, allow, filter, idna);
  }

  /** Copying a one-entry failsafe mapping. */
  lemma CopyOne(name: string, v: Value)
    ensures CopyFailsafe([(name, v)]) == [(name, v)]
  {
    var f := [(name, v)];
    assert f[..0] == [];
  }

  /** A failsafe value is used for a key that is not searched; the searched key keeps its candidates. */
  lemma FailsafeForUnsearchedKey(h1: string, h2: string, allow: bool, idna: string -> string)
    requires IsLowerName(h1)
    ensures ResolveMirrors(MirrorInfo([("security", VStr("http://" + h2))], [("primary", ["http://" + h1])]), None, allow, UrlList, idna)
      == Some([("security", VStr("http://" + h2)), ("primary", UrlList(["http://" + h1]))])
  {
    var subst := Substitutions(None, allow);
    var u1 := "http://" + h1;
    PlainHostTemplate(h1, subst, idna);
    CopyOne("security", VStr("http://" + h2));
    SearchAfterFailsafe("security", VStr("http://" + h2), "primary", u1, u1, subst, idna);
  }

  /** One failsafe entry, then one search key for another name with one template that gives a URL. */
  lemma SearchAfterFailsafe(f: string, v: Value, n: string, t: string, u: string, subst: map<string, string>, idna: string -> string)
    requires FromTemplate(t, subst, idna) == Mirror(u) && n != f
    ensures SearchResults([(f, v)], [(n, [t])], subst, UrlList, idna) == Some([(f, v), (n, UrlList([u]))])
  {
    var failsafe := [(f, v)];
    assert SearchResults(failsafe, [], subst, UrlList, idna) == Some(failsafe);
    assert Keys(failsafe) == {f} by {
      KeysCons(failsafe[0], []);
      assert [failsafe[0]] + [] == failsafe;
    }
    SearchOneKey(failsafe, [], failsafe, n, t, u, subst, idna);
    assert [] + [(n, [t])] == [(n, [t])];
    assert failsafe + [(n, UrlList([u]))] == [(f, v), (n, UrlList([u]))];
  }

  /** The test's values: `{"search": {"primary": ["http://value"]}, "failsafe": {"security": "http://other"}}`. */
  lemma TestFailsafeForUnsearchedKey(allow: bool, idna: string -> string)
    ensures ResolveMirrors(MirrorInfo([("security", VStr("http://other"))], [("primary", ["http://value"])]), None, allow, UrlList, idna)
      == Some([("security", VStr("http://other")), ("primary", UrlList(["http://value"]))])
  {
    ValueAndOther();
    FailsafeForUnsearchedKey("value", "other", allow, idna);
  }

  /** When the filter removes every candidate, the failsafe value stays. */
  lemma FailsafeWhenAllFiltered(h1: string, u: string, allow: bool, idna: string -> string)
    requires IsLowerName(h1)
    ensures ResolveMirrors(MirrorInfo([("primary", VStr(u))], [("primary", ["http://" + h1])]), None, allow, RejectAll, idna)
      == Some([("primary", VStr(u))])
  {
    var subst := Substitutions(None, allow);
    var u1 := "http://" + h1;
    var failsafe := [("primary", VStr(u))];
    PlainHostTemplate(h1, subst, idna);
    CandidatesOne(u1, subst, idna, u1);
    CopyOne("primary", VStr(u));
    assert SearchResults(failsafe, [], subst, RejectAll, idna) == Some(failsafe);
    SearchAppend(failsafe, [], "primary", [u1], subst, RejectAll, idna, failsafe);
    assert [] + [("primary", [u1])] == [("primary", [u1])];
  }

  /** The test's values: the failsafe `http://other` survives a filter that rejects `http://value`. */
  lemma TestFailsafeWhenAllFiltered(allow: bool, idna: string -> string)
    ensures ResolveMirrors(MirrorInfo([("primary", VStr("http://other"))], [("primary", ["http://value"])]), None, allow, RejectAll, idna)
      == Some([("primary", VStr("http://other"))])
  {
    ValueAndOther();
    FailsafeWhenAllFiltered("value", "http://other", allow, idna);
  }
}
