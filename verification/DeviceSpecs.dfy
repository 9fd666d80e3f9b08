/** Target requirement matching (Support/lib/DeviceSpecs.cpp:45-71, 215-372). */
module DeviceSpecs {
  import opened Common

  // ----- versioned names -----

  datatype VersionedName = VersionedName(fullName: string, baseName: string, version: nat)

  const PREFIX := "sm_"

  const UINT64_LIMIT: nat := 0x1_0000_0000_0000_0000

  /** `getAsInteger(10, …)` into 64 bits: fails on no digits, other characters, or overflow. */
  function DecimalValue(s: string): Option<nat> {
    if s == "" then Some(0)
    else
      var last := s[|s| - 1];
      match DecimalValue(s[..|s| - 1])
      case None => None
      case Some(v) => if '0' <= last <= '9' then Some(10 * v + (last as nat - 48)) else None
  }

  function ParseUint64(s: string): Option<nat> {
    if s == "" then None
    else
      match DecimalValue(s)
      case None => None
      case Some(v) => if v < UINT64_LIMIT then Some(v) else None
  }

  function DecodeName(name: string): VersionedName {
    if PREFIX <= name then
      match ParseUint64(name[|PREFIX|..])
      case Some(v) => VersionedName(name, PREFIX[..|PREFIX| - 1], v)
      case None => VersionedName(name, name, 0)
    else VersionedName(name, name, 0)
  }

  /** `operator<=` */
  predicate AtMost(a: VersionedName, b: VersionedName) {
    a.baseName == b.baseName && a.version <= b.version
  }

  lemma BaseEmptyOnlyForEmpty(name: string)
    ensures DecodeName(name).baseName == "" <==> name == ""
  {
  }

  // ----- triples -----

  datatype Os = UnknownOs | Darwin | MacOsX | OtherOs(id: nat)

  /** The parts of a triple that are compared; `text` is its printed form. */
  datatype Triple = Triple(text: string, archName: string, os: Os)

  /** LLVM's table of architecture names: which ones parse to a known architecture. */
  type KnownArchs = string -> bool

  /** The empty triple has no parts, and both spellings of one architecture are known together. */
  ghost predicate TriplesParse(known: KnownArchs, t: Triple) {
    && (t.text == "" ==> t.archName == "" && t.os == UnknownOs)
    && !known("") && known("aarch64") == known("arm64")
  }

  function CanonArch(name: string): string {
    if name == "aarch64" then "arm64" else name
  }

  function CanonOs(os: Os): Os {
    if os == Darwin then MacOsX else os
  }

  predicate SatisfiesTriple(known: KnownArchs, provided: Triple, required: Triple) {
    || required.text == ""
    || ((known(required.archName) ==> CanonArch(provided.archName) == CanonArch(required.archName))
        && (CanonOs(required.os) != UnknownOs ==> CanonOs(provided.os) == CanonOs(required.os)))
  }

  // ----- the other three relations -----

  predicate SatisfiesArch(provided: string, required: string) {
    required == "" || AtMost(DecodeName(required), DecodeName(provided))
  }

  predicate SatisfiesAbi(provided: string, required: string) {
    required == "" || provided == required
  }

  /** Features older system-info versions emitted, ignored on both sides. */
  predicate Legacy(feature: string) {
    feature == "64Bit" || feature == "shstk" || feature == "cmov"
  }

  /** By base name; the first of several features with one base name counts. */
  function ParseFeatures(features: seq<string>): map<string, VersionedName> {
    if features == [] then map[]
    else
      var m, f := ParseFeatures(features[..|features| - 1]), features[|features| - 1];
      var v := DecodeName(f);
      if Legacy(f) || v.baseName in m then m else m[v.baseName := v]
  }

  /** The loop of `parseFeatures`; `insert` does not replace. */
  method ParseFeatureList(features: seq<string>) returns (m: map<string, VersionedName>)
    ensures m == ParseFeatures(features)
  {
    m := map[];
    for i := 0 to |features|
      invariant m == ParseFeatures(features[..i])
    {
      assert features[..i + 1][..i] == features[..i];
      if Legacy(features[i]) {
        continue;
      }
      var v := DecodeName(features[i]);
      if v.baseName !in m {
        m := m[v.baseName := v];
      }
    }
    assert features[..|features|] == features;
  }

  /** Whether one required feature is met. */
  predicate Met(base: string, required: VersionedName, provided: map<string, VersionedName>, disabled: map<string, VersionedName>) {
    base !in disabled && base in provided && AtMost(required, provided[base])
  }

  predicate SatisfiesFeatures(provided: seq<string>, disabled: seq<string>, required: seq<string>) {
    var p, d, r := ParseFeatures(provided), ParseFeatures(disabled), ParseFeatures(required);
    required == [] || forall base | base in r :: Met(base, r[base], p, d)
  }

  /** The loop of `satisfiesFeatures` over the required map, in whatever order. */
  method CheckFeatures(provided: seq<string>, disabled: seq<string>, required: seq<string>)
    returns (missing: set<string>, ok: bool)
    ensures ok == SatisfiesFeatures(provided, disabled, required)
    ensures ok <==> forall i | Counts(required, i) :: FeatureMet(provided, disabled, required[i])
    ensures required != [] ==>
              missing == set b | b in ParseFeatures(required)
                              && !Met(b, ParseFeatures(required)[b], ParseFeatures(provided), ParseFeatures(disabled))
  {
    FeaturesExactly(provided, disabled, required);
    missing := {};
    if required == [] {
      return missing, true;
    }
    var p := ParseFeatureList(provided);
    var d := ParseFeatureList(disabled);
    var r := ParseFeatureList(required);
    var todo := r.Keys;
    while todo != {}
      invariant todo <= r.Keys
      invariant missing == set b | b in r && b !in todo && !Met(b, r[b], p, d)
      decreases todo
    {
      var base :| base in todo;
      todo := todo - {base};
      if !Met(base, r[base], p, d) {
        missing := missing + {base};
      }
    }
    ok := missing == {};
    assert ok ==> forall b | b in r :: b !in missing;
    assert !ok ==> exists b :: b in missing;
  }

  // ----- the whole check -----

  datatype TargetInfo = TargetInfo(triple: Triple, arch: string, features: seq<string>, disabledFeatures: seq<string>, abi: string)

  /** `checkSatisfiesRequirements`: true where the source returns success. */
  predicate Satisfies(known: KnownArchs, provided: TargetInfo, required: TargetInfo) {
    && SatisfiesTriple(known, provided.triple, required.triple)
    && SatisfiesArch(provided.arch, required.arch)
    && SatisfiesFeatures(provided.features, provided.disabledFeatures, required.features)
    && SatisfiesAbi(provided.abi, required.abi)
  }

  lemma TripleTransitive(known: KnownArchs, a: Triple, b: Triple, c: Triple)
    requires TriplesParse(known, b) && TriplesParse(known, c)
    requires SatisfiesTriple(known, a, b) && SatisfiesTriple(known, b, c)
    ensures SatisfiesTriple(known, a, c)
  {
  }

  lemma ArchTransitive(a: string, b: string, c: string)
    requires SatisfiesArch(a, b) && SatisfiesArch(b, c)
    ensures SatisfiesArch(a, c)
  {
    BaseEmptyOnlyForEmpty(b);
    BaseEmptyOnlyForEmpty(c);
  }

  lemma FeaturesTransitive(a: seq<string>, notA: seq<string>, b: seq<string>, notB: seq<string>, c: seq<string>)
    requires SatisfiesFeatures(a, notA, b) && SatisfiesFeatures(b, notB, c)
    ensures SatisfiesFeatures(a, notA, c)
  {
    var pa, pb, pc := ParseFeatures(a), ParseFeatures(b), ParseFeatures(c);
    if c != [] {
      forall base | base in pc ensures Met(base, pc[base], pa, ParseFeatures(notA)) {
        assert Met(base, pc[base], pb, ParseFeatures(notB));
        assert b != [];
        assert Met(base, pb[base], pa, ParseFeatures(notA));
      }
    }
  }

  /** If A satisfies B and B satisfies C, then A satisfies C. */
  lemma SatisfiesTransitive(known: KnownArchs, a: TargetInfo, b: TargetInfo, c: TargetInfo)
    requires TriplesParse(known, b.triple) && TriplesParse(known, c.triple)
    requires Satisfies(known, a, b) && Satisfies(known, b, c)
    ensures Satisfies(known, a, c)
  {
    TripleTransitive(known, a.triple, b.triple, c.triple);
    ArchTransitive(a.arch, b.arch, c.arch);
    FeaturesTransitive(a.features, a.disabledFeatures, b.features, b.disabledFeatures, c.features);
  }

  /** A target satisfies itself exactly when it disables no base name that it also lists as enabled. */
  lemma SatisfiesItselfExactly(known: KnownArchs, t: TargetInfo)
    ensures Satisfies(known, t, t)
       <==> ParseFeatures(t.features).Keys !! ParseFeatures(t.disabledFeatures).Keys
  {
    var p, d := ParseFeatures(t.features), ParseFeatures(t.disabledFeatures);
    if Satisfies(known, t, t) {
      forall base | base in p ensures base !in d {
        assert t.features != [];
        assert Met(base, p[base], p, d);
      }
    } else {
      assert !SatisfiesFeatures(t.features, t.disabledFeatures, t.features);
    }
  }

  /** The first feature with a base name, legacy ones aside, is the one the map keeps. */
  lemma {:induction false} FirstFeatureCounts(features: seq<string>, base: string)
    ensures base in ParseFeatures(features) <==>
              exists i :: 0 <= i < |features| && !Legacy(features[i]) && DecodeName(features[i]).baseName == base
    ensures base in ParseFeatures(features) ==>
              exists i :: 0 <= i < |features| && !Legacy(features[i])
                && ParseFeatures(features)[base] == DecodeName(features[i]) && DecodeName(features[i]).baseName == base
                && forall j | 0 <= j < i :: Legacy(features[j]) || DecodeName(features[j]).baseName != base
  {
    if features != [] {
      var most, last := features[..|features| - 1], |features| - 1;
      FirstFeatureCounts(most, base);
      if base in ParseFeatures(most) {
        var i :| 0 <= i < |most| && !Legacy(most[i])
          && ParseFeatures(most)[base] == DecodeName(most[i]) && DecodeName(most[i]).baseName == base
          && forall j | 0 <= j < i :: Legacy(most[j]) || DecodeName(most[j]).baseName != base;
        assert features[i] == most[i];
        assert forall j | 0 <= j < i :: features[j] == most[j];
      } else {
        assert forall j | 0 <= j < |most| :: features[j] == most[j];
      }
    }
  }

  // ----- what satisfying means, from the names alone -----

  predicate Digits(d: string) {
    d != "" && forall i | 0 <= i < |d| :: '0' <= d[i] <= '9'
  }

  /** The number a digit string spells. */
  function Numeral(d: string): (n: nat)
    requires forall i | 0 <= i < |d| :: '0' <= d[i] <= '9'
  {
    if d == "" then 0 else Numeral(d[..|d| - 1]) * 10 + (d[|d| - 1] as nat - '0' as nat)
  }

  /** A name of the "sm" family with its version: "sm_" and digits of a value below 2^64, or "sm" itself. */
  predicate Ranked(name: string, version: nat) {
    || (name == "sm" && version == 0)
    || (|name| > 3 && name[..3] == "sm_" && Digits(name[3..]) && Numeral(name[3..]) == version < 0x1_0000_0000_0000_0000)
  }

  /** The provided name is the required one, or both are of the family and the version is at least as high. */
  ghost predicate AtLeast(provided: string, required: string) {
    provided == required || exists v, u :: Ranked(provided, v) && Ranked(required, u) && u <= v
  }

  ghost predicate SameFamily(a: string, b: string) {
    a == b || exists v, u :: Ranked(a, v) && Ranked(b, u)
  }

  lemma {:induction false} DecimalIsNumeral(d: string)
    ensures DecimalValue(d).Some? <==> forall i | 0 <= i < |d| :: '0' <= d[i] <= '9'
    ensures DecimalValue(d).Some? ==> DecimalValue(d).value == Numeral(d)
  {
    if d != "" {
      DecimalIsNumeral(d[..|d| - 1]);
    }
  }

  lemma RankedUnique(name: string, v: nat, u: nat)
    requires Ranked(name, v) && Ranked(name, u)
    ensures v == u
  {
  }

  /** What a name is decoded into. */
  lemma DecodedName(name: string)
    ensures forall v :: Ranked(name, v) <==> DecodeName(name).baseName == "sm" && DecodeName(name).version == v
    ensures DecodeName(name).baseName != "sm" ==> DecodeName(name).baseName == name && DecodeName(name).version == 0
  {
    if PREFIX <= name {
      assert name[..3] == "sm_";
      DecimalIsNumeral(name[3..]);
    } else if |name| > 3 {
      assert name[..3] != "sm_";
    }
  }

  /** The order of versioned names is that of the families' versions, and equality for all other names. */
  lemma OrderExactly(provided: string, required: string)
    ensures AtMost(DecodeName(required), DecodeName(provided)) <==> AtLeast(provided, required)
    ensures DecodeName(required).baseName == DecodeName(provided).baseName <==> SameFamily(provided, required)
  {
    var p, r := DecodeName(provided), DecodeName(required);
    DecodedName(provided);
    DecodedName(required);
    if p.baseName == "sm" && r.baseName == "sm" {
      assert Ranked(provided, p.version) && Ranked(required, r.version);
    }
  }

  /** Between two digit strings of values below 2^64, "sm_" s satisfies "sm_" t exactly when t's value is at most s's. */
  lemma DigitOrder(s: string, t: string)
    requires Digits(s) && Digits(t) && Numeral(s) < 0x1_0000_0000_0000_0000 && Numeral(t) < 0x1_0000_0000_0000_0000
    ensures SatisfiesArch("sm_" + s, "sm_" + t) <==> Numeral(t) <= Numeral(s)
  {
    var a, b := "sm_" + s, "sm_" + t;
    assert a[..3] == "sm_" == b[..3] && a[3..] == s && b[3..] == t;
    assert Ranked(a, Numeral(s)) && Ranked(b, Numeral(t));
    OrderExactly(a, b);
    if AtLeast(a, b) && a != b {
      var v, u :| Ranked(a, v) && Ranked(b, u) && u <= v;
      RankedUnique(a, v, Numeral(s));
      RankedUnique(b, u, Numeral(t));
    }
  }

  predicate Kept(features: seq<string>, i: int) {
    0 <= i < |features| && features[i] != "64Bit" && features[i] != "shstk" && features[i] != "cmov"
  }

  /** The first feature of a family, the ignored ones aside. */
  ghost predicate FirstOf(features: seq<string>, i: int, name: string) {
    Kept(features, i) && SameFamily(features[i], name) && forall j | 0 <= j < i && Kept(features, j) :: !SameFamily(features[j], name)
  }

  /** Not disabled, and the first provided one of its family is high enough. */
  ghost predicate FeatureMet(provided: seq<string>, disabled: seq<string>, name: string) {
    && (forall i | Kept(disabled, i) :: !SameFamily(disabled[i], name))
    && (exists i :: FirstOf(provided, i, name) && AtLeast(provided[i], name))
  }

  lemma InMap(features: seq<string>, name: string)
    ensures DecodeName(name).baseName in ParseFeatures(features) <==> exists i :: Kept(features, i) && SameFamily(features[i], name)
  {
    var base := DecodeName(name).baseName;
    FirstFeatureCounts(features, base);
    forall i | Kept(features, i) ensures SameFamily(features[i], name) <==> DecodeName(features[i]).baseName == base {
      OrderExactly(features[i], name);
    }
    if i :| 0 <= i < |features| && !Legacy(features[i]) && DecodeName(features[i]).baseName == base {
      assert Kept(features, i);
    }
  }

  lemma FirstInMap(features: seq<string>, name: string) returns (i: int)
    requires DecodeName(name).baseName in ParseFeatures(features)
    ensures FirstOf(features, i, name) && ParseFeatures(features)[DecodeName(name).baseName] == DecodeName(features[i])
  {
    var base := DecodeName(name).baseName;
    FirstFeatureCounts(features, base);
    i :| 0 <= i < |features| && !Legacy(features[i])
      && ParseFeatures(features)[base] == DecodeName(features[i]) && DecodeName(features[i]).baseName == base
      && forall j | 0 <= j < i :: Legacy(features[j]) || DecodeName(features[j]).baseName != base;
    OrderExactly(features[i], name);
    forall j | 0 <= j < i && Kept(features, j) ensures !SameFamily(features[j], name) {
      OrderExactly(features[j], name);
    }
  }

  lemma FirstUnique(features: seq<string>, i: int, j: int, name: string)
    requires FirstOf(features, i, name) && FirstOf(features, j, name)
    ensures i == j
  {
  }

  lemma MetExactly(provided: seq<string>, disabled: seq<string>, name: string)
    ensures Met(DecodeName(name).baseName, DecodeName(name), ParseFeatures(provided), ParseFeatures(disabled))
       <==> FeatureMet(provided, disabled, name)
  {
    var base := DecodeName(name).baseName;
    InMap(disabled, name);
    InMap(provided, name);
    if base in ParseFeatures(provided) {
      var i := FirstInMap(provided, name);
      OrderExactly(provided[i], name);
      forall j | FirstOf(provided, j, name) ensures j == i {
        FirstUnique(provided, i, j, name);
      }
    }
  }

  /** The features of a requirement that count: the first of each family, the ignored ones aside. */
  ghost predicate Counts(required: seq<string>, i: int) {
    0 <= i < |required| && FirstOf(required, i, required[i])
  }

  lemma SelfFamily(name: string)
    ensures SameFamily(name, name)
  {
  }

  /** Features are satisfied if and only if every one that counts is met. */
  lemma FeaturesExactly(provided: seq<string>, disabled: seq<string>, required: seq<string>)
    ensures SatisfiesFeatures(provided, disabled, required)
       <==> forall i | Counts(required, i) :: FeatureMet(provided, disabled, required[i])
  {
    var p, d, r := ParseFeatures(provided), ParseFeatures(disabled), ParseFeatures(required);
    forall i | Counts(required, i)
      ensures DecodeName(required[i]).baseName in r && r[DecodeName(required[i]).baseName] == DecodeName(required[i])
    {
      InMap(required, required[i]);
      var k := FirstInMap(required, required[i]);
      FirstUnique(required, i, k, required[i]);
    }
    if SatisfiesFeatures(provided, disabled, required) {
      forall i | Counts(required, i) ensures FeatureMet(provided, disabled, required[i]) {
        MetExactly(provided, disabled, required[i]);
      }
    }
    if forall i | Counts(required, i) :: FeatureMet(provided, disabled, required[i]) {
      forall base | base in r ensures Met(base, r[base], p, d) {
        var i := FirstOfBase(required, base);
        MetExactly(provided, disabled, required[i]);
      }
    }
  }

  lemma FirstOfBase(required: seq<string>, base: string) returns (i: int)
    requires base in ParseFeatures(required)
    ensures Counts(required, i) && DecodeName(required[i]).baseName == base
    ensures ParseFeatures(required)[base] == DecodeName(required[i])
  {
    FirstFeatureCounts(required, base);
    var k :| 0 <= k < |required| && !Legacy(required[k]) && DecodeName(required[k]).baseName == base;
    i := FirstInMap(required, required[k]);
    OrderExactly(required[i], required[k]);
    SelfFamily(required[i]);
    forall j | 0 <= j < i && Kept(required, j) ensures !SameFamily(required[j], required[i]) {
      OrderExactly(required[j], required[i]);
      OrderExactly(required[j], required[k]);
    }
  }

  predicate SameArch(a: string, b: string) {
    a == b || (a == "aarch64" && b == "arm64") || (a == "arm64" && b == "aarch64")
  }

  predicate SameOs(a: Os, b: Os) {
    a == b || (a == Darwin && b == MacOsX) || (a == MacOsX && b == Darwin)
  }

  /** The whole check, spelled out. */
  lemma SatisfiesExactly(known: KnownArchs, provided: TargetInfo, required: TargetInfo)
    ensures Satisfies(known, provided, required) <==>
              && (required.triple.text == ""
                  || ((known(required.triple.archName) ==> SameArch(provided.triple.archName, required.triple.archName))
                      && (required.triple.os == UnknownOs || SameOs(provided.triple.os, required.triple.os))))
              && (required.arch == "" || AtLeast(provided.arch, required.arch))
              && (forall i | Counts(required.features, i) ::
                    FeatureMet(provided.features, provided.disabledFeatures, required.features[i]))
              && (required.abi == "" || provided.abi == required.abi)
  {
    OrderExactly(provided.arch, required.arch);
    FeaturesExactly(provided.features, provided.disabledFeatures, required.features);
    TripleExactly(known, provided.triple, required.triple);
  }

  lemma TripleExactly(known: KnownArchs, provided: Triple, required: Triple)
    ensures SatisfiesTriple(known, provided, required) <==>
              || required.text == ""
              || ((known(required.archName) ==> SameArch(provided.archName, required.archName))
                  && (required.os == UnknownOs || SameOs(provided.os, required.os)))
  {
  }
}
