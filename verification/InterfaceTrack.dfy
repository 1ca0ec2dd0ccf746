/** Interface identity and its compatibility track: `name@major`, `name@0.minor`
    below 1.0, `name@0.0.patch` below that. */
module InterfaceTrack {
  import opened Text

  const TWO_TO_THE_64: nat := 0x1_0000_0000_0000_0000

  /** The numbers of a semantic version; a pre-release or build tag does not
      reach the track. */
  datatype Version = Version(major: nat, minor: nat, patch: nat)

  datatype InterfaceId = InterfaceId(name: string, version: Version)

  predicate ValidVersion(v: Version) {
    v.major < TWO_TO_THE_64 && v.minor < TWO_TO_THE_64 && v.patch < TWO_TO_THE_64
  }

  /* ----- Names ----- */

  predicate IsKebabChar(c: char) {
    'a' <= c <= 'z' || IsDigit(c) || c == '-'
  }

  predicate IsKebabWord(word: string) {
    && word != [] && word[0] != '-' && word[|word| - 1] != '-'
    && forall i :: 0 <= i < |word| ==> IsKebabChar(word[i])
  }

  /** A package, which is two words joined by a colon, a slash, and a word. */
  predicate ValidName(name: string) {
    match SplitOnce(name, '/')
    case None => false
    case Some((package, interface)) =>
      match SplitOnce(package, ':')
      case None => false
      case Some((namespace, pkg)) => IsKebabWord(namespace) && IsKebabWord(pkg) && IsKebabWord(interface)
  }

  predicate ValidId(id: InterfaceId) {
    ValidName(id.name) && ValidVersion(id.version)
  }

  /* ----- Tracks ----- */

  function TrackSuffix(v: Version): string {
    if v.major == 0 && v.minor == 0 then "0.0." + Decimal(v.patch)
    else if v.major == 0 then "0." + Decimal(v.minor)
    else Decimal(v.major)
  }

  function Track(id: InterfaceId): string {
    id.name + "@" + TrackSuffix(id.version)
  }

  /** Digits only, no leading zero, and within 64 bits. */
  function CanonicalNumber(s: string): Option<nat> {
    if s == [] || !AllDigits(s) || (|s| > 1 && s[0] == '0') || DigitsValue(s) >= TWO_TO_THE_64 then None
    else Some(DigitsValue(s))
  }

  /** The suffix as it would be rendered, if it is one at all. */
  function CanonicalSuffix(suffix: string): Option<string> {
    if "0.0." <= suffix then
      match CanonicalNumber(suffix[4..])
      case None => None
      case Some(patch) => Some("0.0." + Decimal(patch))
    else if "0." <= suffix then
      match CanonicalNumber(suffix[2..])
      case None => None
      case Some(minor) => if minor >= 1 then Some("0." + Decimal(minor)) else None
    else
      match CanonicalNumber(suffix)
      case None => None
      case Some(major) => if major >= 1 then Some(Decimal(major)) else None
  }

  /** Accept a track key, as written. */
  function ParseTrack(key: string): Option<string> {
    match SplitOnce(key, '@')
    case None => None
    case Some((name, suffix)) =>
      if ValidName(name) && CanonicalSuffix(suffix) == Some(suffix) then Some(key) else None
  }

  /* ----- Compatibility, as semantic versioning has it ----- */

  /** The leading non-zero number decides compatibility; below 0.1 every patch
      stands alone. */
  predicate Compatible(a: Version, b: Version) {
    if a.major != 0 || b.major != 0 then a.major == b.major
    else if a.minor != 0 || b.minor != 0 then a.minor == b.minor
    else a.patch == b.patch
  }

  /* ----- Proofs ----- */

  lemma NameHasNoAt(name: string)
    requires ValidName(name)
    ensures '@' !in name
  {
  }

  lemma NumberIsCanonical(n: nat)
    requires n < TWO_TO_THE_64
    ensures CanonicalNumber(Decimal(n)) == Some(n)
  {
    DecimalIsCanonical(n);
  }

  /** No number is mistaken for a `0.` suffix. */
  lemma NumberIsNotDotted(n: nat)
    ensures !("0." <= Decimal(n))
    ensures n >= 1 ==> !("0.0." <= "0." + Decimal(n))
  {
    DecimalIsCanonical(n);
    assert ("0." + Decimal(n))[2] == Decimal(n)[0];
  }

  lemma SuffixIsCanonical(v: Version)
    requires ValidVersion(v)
    ensures CanonicalSuffix(TrackSuffix(v)) == Some(TrackSuffix(v))
  {
    hide CanonicalNumber;
    var suffix := TrackSuffix(v);
    if v.major == 0 && v.minor == 0 {
      assert suffix[4..] == Decimal(v.patch);
      NumberIsCanonical(v.patch);
    } else if v.major == 0 {
      assert suffix[2..] == Decimal(v.minor);
      NumberIsCanonical(v.minor);
      NumberIsNotDotted(v.minor);
    } else {
      NumberIsCanonical(v.major);
      NumberIsNotDotted(v.major);
      assert "0.0." <= suffix ==> "0." <= suffix;
    }
  }

  /** The track of every interface id is accepted, as itself. */
  lemma TrackParses(id: InterfaceId)
    requires ValidId(id)
    ensures ParseTrack(Track(id)) == Some(Track(id))
  {
    hide CanonicalSuffix, TrackSuffix, ValidName;
    NameHasNoAt(id.name);
    assert Track(id) == id.name + ['@'] + TrackSuffix(id.version);
    SplitOnceAt(id.name, '@', TrackSuffix(id.version));
    SuffixIsCanonical(id.version);
  }

  lemma SuffixIsOfVersion(suffix: string) returns (v: Version)
    requires CanonicalSuffix(suffix) == Some(suffix)
    ensures ValidVersion(v) && TrackSuffix(v) == suffix
  {
    if "0.0." <= suffix {
      v := Version(0, 0, CanonicalNumber(suffix[4..]).value);
    } else if "0." <= suffix {
      v := Version(0, CanonicalNumber(suffix[2..]).value, 0);
    } else {
      v := Version(CanonicalNumber(suffix).value, 0, 0);
    }
  }

  /** Every accepted key is the track of some interface id. */
  lemma AcceptedIsTrack(key: string) returns (id: InterfaceId)
    requires ParseTrack(key).Some?
    ensures ValidId(id) && Track(id) == key
  {
    hide CanonicalSuffix, TrackSuffix, ValidName;
    var (name, suffix) := SplitOnce(key, '@').value;
    var v := SuffixIsOfVersion(suffix);
    id := InterfaceId(name, v);
    assert Track(id) == name + ['@'] + suffix;
  }

  /** What the suffix says: which number leads, and its value. */
  function Band(v: Version): (nat, nat) {
    if v.major != 0 then (0, v.major) else if v.minor != 0 then (1, v.minor) else (2, v.patch)
  }

  lemma SuffixDeterminesBand(a: Version, b: Version)
    ensures TrackSuffix(a) == TrackSuffix(b) <==> Band(a) == Band(b)
  {
    var (i, m) := Band(a);
    var (j, n) := Band(b);
    var s, t := TrackSuffix(a), TrackSuffix(b);
    DecimalIsCanonical(m);
    DecimalIsCanonical(n);
    NumberIsNotDotted(m);
    NumberIsNotDotted(n);
    if s == t {
      SameShape(a, b);
      if i == 1 { assert s[2..] == Decimal(m) && t[2..] == Decimal(n); }
      if i == 2 { assert s[4..] == Decimal(m) && t[4..] == Decimal(n); }
    }
  }

  /** The three kinds of suffix do not overlap. */
  lemma SameShape(a: Version, b: Version)
    requires TrackSuffix(a) == TrackSuffix(b)
    ensures Band(a).0 == Band(b).0
  {
    SuffixShape(a);
    SuffixShape(b);
  }

  lemma SuffixShape(v: Version)
    ensures "0.0." <= TrackSuffix(v) <==> Band(v).0 == 2
    ensures "0." <= TrackSuffix(v) <==> Band(v).0 != 0
  {
    NumberIsNotDotted(v.major);
    NumberIsNotDotted(v.minor);
    var suffix := TrackSuffix(v);
    assert "0.0." <= suffix ==> suffix[..2] == "0.";
    if Band(v).0 == 2 { assert suffix[..4] == "0.0."; }
  }

  /** Two ids share a track exactly when they name the same interface in
      compatible versions. */
  lemma SameTrackIsCompatible(a: InterfaceId, b: InterfaceId)
    requires ValidId(a) && ValidId(b)
    ensures Track(a) == Track(b) <==> a.name == b.name && Compatible(a.version, b.version)
  {
    hide TrackSuffix, ValidName;
    NameHasNoAt(a.name);
    NameHasNoAt(b.name);
    assert Track(a) == a.name + ['@'] + TrackSuffix(a.version);
    assert Track(b) == b.name + ['@'] + TrackSuffix(b.version);
    SplitOnceAt(a.name, '@', TrackSuffix(a.version));
    SplitOnceAt(b.name, '@', TrackSuffix(b.version));
    SuffixDeterminesBand(a.version, b.version);
    assert Band(a.version) == Band(b.version) <==> Compatible(a.version, b.version);
  }

  /* ----- Names and keys, written out ----- */

  const LOWER := "abcdefghijklmnopqrstuvwxyz"

  /** Lower-case letters, digits and hyphens, with no hyphen at either end. */
  predicate IsListedWord(s: string) {
    && s != [] && s[0] != '-' && s[|s| - 1] != '-'
    && forall i :: 0 <= i < |s| ==> s[i] in LOWER || s[i] in DIGITS || s[i] == '-'
  }

  ghost predicate IsThreeWords(name: string, namespace: string, package: string, interface: string) {
    && name == namespace + ":" + package + "/" + interface
    && IsListedWord(namespace) && IsListedWord(package) && IsListedWord(interface)
  }

  lemma KebabIsListed(c: char)
    ensures IsKebabChar(c) <==> c in LOWER || c in DIGITS || c == '-'
    ensures IsKebabChar(c) ==> c != ':' && c != '/' && c != '@'
  {
    if 'a' <= c <= 'z' { LowerIsListed(c); }
    if c in LOWER { ListedIsLower(c); }
    DigitsAreListed(c);
  }

  lemma LowerIsListed(c: char)
    requires 'a' <= c <= 'z'
    ensures c in LOWER
  {
    assert LOWER[c as int - 'a' as int] == c;
  }

  lemma ListedIsLower(c: char)
    requires c in LOWER
    ensures 'a' <= c <= 'z'
  {
  }

  lemma WordIsListed(s: string)
    ensures IsKebabWord(s) <==> IsListedWord(s)
    ensures IsListedWord(s) ==> ':' !in s && '/' !in s && '@' !in s
  {
    hide IsKebabChar;
    forall i | 0 <= i < |s|
      ensures IsKebabChar(s[i]) <==> s[i] in LOWER || s[i] in DIGITS || s[i] == '-'
      ensures IsKebabChar(s[i]) ==> s[i] != ':' && s[i] != '/' && s[i] != '@'
    {
      KebabIsListed(s[i]);
    }
  }

  /** A name is valid exactly when it is three words, a colon after the first and a
      slash after the second. */
  lemma NameIsThreeWords(name: string)
    ensures ValidName(name) <==> exists a, b, c :: IsThreeWords(name, a, b, c)
  {
    hide IsKebabWord, IsListedWord, SplitOnce;
    if ValidName(name) {
      var (package, c) := SplitOnce(name, '/').value;
      var (a, b) := SplitOnce(package, ':').value;
      WordIsListed(a);
      WordIsListed(b);
      WordIsListed(c);
      assert name == a + ":" + b + "/" + c;
      assert IsThreeWords(name, a, b, c);
    }
    forall a, b, c | IsThreeWords(name, a, b, c)
      ensures ValidName(name)
    {
      WordsMakeAName(name, a, b, c);
    }
  }

  lemma WordsMakeAName(name: string, a: string, b: string, c: string)
    requires IsThreeWords(name, a, b, c)
    ensures ValidName(name)
  {
    hide IsKebabWord, IsListedWord, SplitOnce;
    WordIsListed(a);
    WordIsListed(b);
    WordIsListed(c);
    var package := a + [':'] + b;
    assert '/' !in package;
    assert name == package + ['/'] + c;
    SplitOnceAt(package, '/', c);
    SplitOnceAt(a, ':', b);
  }

  /** How a key spells its number: `@n`, `@0.n` or `@0.0.n`, with `n` in decimal and
      not zero in the first two. */
  ghost predicate IsKey(key: string, name: string, n: nat) {
    || (n >= 1 && key == name + "@" + Decimal(n))
    || (n >= 1 && key == name + "@0." + Decimal(n))
    || key == name + "@0.0." + Decimal(n)
  }

  /** A key is accepted exactly when it is a name and such a number of 64 bits. */
  lemma KeysExactly(key: string)
    ensures ParseTrack(key).Some? <==>
              exists name, n: nat :: ValidName(name) && n < 0x1_0000_0000_0000_0000 && IsKey(key, name, n)
  {
    hide ValidName, ParseTrack, Decimal, IsKey;
    if ParseTrack(key).Some? {
      var id := AcceptedIsTrack(key);
      var n := TrackIsKey(id);
    }
    forall name, n: nat | ValidName(name) && n < 0x1_0000_0000_0000_0000 && IsKey(key, name, n)
      ensures ParseTrack(key).Some?
    {
      KeyIsTrack(key, name, n);
    }
  }

  lemma TrackIsKey(id: InterfaceId) returns (n: nat)
    requires ValidId(id)
    ensures n < 0x1_0000_0000_0000_0000 && IsKey(Track(id), id.name, n)
  {
    hide ValidName, Decimal;
    n := Band(id.version).1;
    var digits := Decimal(n);
    assert id.name + "@" + ("0." + digits) == id.name + "@0." + digits;
    assert id.name + "@" + ("0.0." + digits) == id.name + "@0.0." + digits;
  }

  lemma KeyIsTrack(key: string, name: string, n: nat)
    requires ValidName(name) && n < 0x1_0000_0000_0000_0000 && IsKey(key, name, n)
    ensures ParseTrack(key) == Some(key)
  {
    hide ValidName, Decimal, ParseTrack;
    var digits := Decimal(n);
    assert name + "@" + ("0." + digits) == name + "@0." + digits;
    assert name + "@" + ("0.0." + digits) == name + "@0.0." + digits;
    if n >= 1 && key == name + "@" + digits {
      TrackParses(InterfaceId(name, Version(n, 0, 0)));
    } else if n >= 1 && key == name + "@0." + digits {
      TrackParses(InterfaceId(name, Version(0, n, 0)));
    } else {
      TrackParses(InterfaceId(name, Version(0, 0, n)));
    }
  }
}
