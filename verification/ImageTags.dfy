// Synchronising image tags: reading `name:tag` from the release file and rewriting the
// tags of a values tree.

module ImageTags {
  import opened Options

  datatype Image = Image(name: string, tag: string)

  // ---------- name:tag ----------

  /** [\w.-] */
  predicate TagChar(c: char) {
    'a' <= c <= 'z' || 'A' <= c <= 'Z' || '0' <= c <= '9' || c in "_.-"
  }

  /** In ASCII codes: digits, upper case, lower case, underscore, full stop and hyphen. */
  lemma TagCharIs(c: char)
    ensures var n := c as int;
      TagChar(c) <==> 48 <= n <= 57 || 65 <= n <= 90 || 97 <= n <= 122 || n == 95 || n == 46 || n == 45
  {
  }

  predicate IsTag(t: string) {
    t != [] && forall i | 0 <= i < |t| :: TagChar(t[i])
  }

  /** `.+` does not cross a line break. */
  predicate IsName(n: string) {
    n != [] && '\n' !in n
  }

  function Print(image: Image): string {
    image.name + ":" + image.tag
  }

  /** Both groups of the pattern can match like this at the start of s. */
  predicate MatchesAtStart(s: string, image: Image) {
    IsName(image.name) && IsTag(image.tag) && Print(image) <= s
  }

  function FirstLine(s: string): nat {
    if s == [] || s[0] == '\n' then 0 else 1 + FirstLine(s[1..])
  }

  /** The length of the longest run of tag characters at the start of s. */
  function TagRun(s: string): (n: nat)
    ensures n <= |s|
    ensures forall i | 0 <= i < n :: TagChar(s[i])
    ensures n < |s| ==> !TagChar(s[n])
  {
    if s == [] || !TagChar(s[0]) then 0 else 1 + TagRun(s[1..])
  }

  /** The last colon before position n that can separate a name from a tag. */
  function LastSeparator(s: string, n: nat): Option<nat>
    requires n <= |s|
  {
    if n <= 1 then None
    else if s[n - 1] == ':' && n < |s| && TagChar(s[n]) then Some(n - 1)
    else LastSeparator(s, n - 1)
  }

  /** re.match(r"(.+):([\w.-]+)", s): the first group takes as much as it can, then the second. */
  function ParseRelease(s: string): Option<Image> {
    FirstLineBounded(s);
    SeparatorInside(s, FirstLine(s));
    match LastSeparator(s, FirstLine(s))
    case None => None
    case Some(c) => Some(Image(s[..c], s[c + 1..][..TagRun(s[c + 1..])]))
  }

  lemma {:induction false} FirstLineBounded(s: string)
    ensures FirstLine(s) <= |s|
    ensures forall i | 0 <= i < FirstLine(s) :: s[i] != '\n'
    ensures FirstLine(s) < |s| ==> s[FirstLine(s)] == '\n'
  {
    if s != [] && s[0] != '\n' {
      FirstLineBounded(s[1..]);
      forall i | 0 <= i < FirstLine(s) ensures s[i] != '\n' {
        if i > 0 { assert s[i] == s[1..][i - 1]; }
      }
    }
  }

  lemma {:induction false} SeparatorInside(s: string, n: nat)
    requires n <= |s|
    ensures var c := LastSeparator(s, n);
      && (c.Some? ==> 1 <= c.value < n && c.value + 1 < |s| && s[c.value] == ':' && TagChar(s[c.value + 1]))
      && forall d | 1 <= d < n && d + 1 < |s| && s[d] == ':' && TagChar(s[d + 1]) :: c.Some? && d <= c.value
  {
    if n > 1 { SeparatorInside(s, n - 1); }
  }

  lemma PrintShape(image: Image)
    ensures var (p, c) := (Print(image), |image.name|);
      |p| == c + 1 + |image.tag| && p[..c] == image.name && p[c] == ':' && p[c + 1..] == image.tag
  {
  }

  lemma PrefixParts(p: string, s: string, c: nat)
    requires p <= s && c < |p|
    ensures s[..c] == p[..c] && s[c] == p[c] && p[c + 1..] <= s[c + 1..]
  {
  }

  lemma MatchSplits(s: string, image: Image)
    requires MatchesAtStart(s, image)
    ensures var c := |image.name|;
      && 1 <= c < FirstLine(s) && c + 1 < |s| && s[c] == ':' && TagChar(s[c + 1])
      && image.name == s[..c] && image.tag <= s[c + 1..]
  {
    var c := |image.name|;
    PrintShape(image);
    PrefixParts(Print(image), s, c);
    FirstLineBounded(s);
    assert s[c + 1..][0] == image.tag[0];
    NoBreakBefore(s, c);
  }

  lemma NoBreakBefore(s: string, c: nat)
    requires c < |s| && '\n' !in s[..c] && s[c] != '\n'
    ensures c < FirstLine(s)
  {
    FirstLineBounded(s);
    assert forall i | 0 <= i < c :: s[i] == s[..c][i];
  }

  lemma SplitMatches(s: string, c: nat)
    requires 1 <= c < FirstLine(s) && c + 1 < |s| && s[c] == ':' && TagChar(s[c + 1])
    ensures var rest := s[c + 1..]; MatchesAtStart(s, Image(s[..c], rest[..TagRun(rest)]))
  {
    FirstLineBounded(s);
    var rest := s[c + 1..];
    var t := rest[..TagRun(rest)];
    assert rest[0] == s[c + 1];
    Rejoin(s, c, |t|);
  }

  lemma Rejoin(s: string, c: nat, t: nat)
    requires c + 1 + t <= |s| && s[c] == ':'
    ensures s[..c] + ":" + s[c + 1..][..t] == s[..c + 1 + t]
  {
  }

  /** found is the match a greedy first group, and then a greedy second one, arrives at. */
  predicate Beats(found: Image, other: Image) {
    |other.name| < |found.name| || (other.name == found.name && other.tag <= found.tag)
  }

  lemma NoneBeatsRelease(s: string, other: Image)
    requires MatchesAtStart(s, other)
    ensures ParseRelease(s).Some? && Beats(ParseRelease(s).value, other)
  {
    FirstLineBounded(s);
    SeparatorInside(s, FirstLine(s));
    MatchSplits(s, other);
    var c := LastSeparator(s, FirstLine(s)).value;
    if |other.name| == c {
      RunIsLongest(s[c + 1..], other.tag);
    }
  }

  /** ParseRelease finds the match the pattern prescribes: there is a match at all, no match has a longer name, and none
      with this name has a longer tag. */
  lemma ReleaseIsGreedy(s: string)
    ensures ParseRelease(s).Some? <==> exists image :: MatchesAtStart(s, image)
    ensures ParseRelease(s).Some? ==>
      MatchesAtStart(s, ParseRelease(s).value) && forall other | MatchesAtStart(s, other) ::
          Beats(ParseRelease(s).value, other)
  {
    FirstLineBounded(s);
    SeparatorInside(s, FirstLine(s));
    var separator := LastSeparator(s, FirstLine(s));
    if separator.Some? {
      SplitMatches(s, separator.value);
    }
    forall other | MatchesAtStart(s, other) ensures ParseRelease(s).Some? && Beats(ParseRelease(s).value, other) {
      NoneBeatsRelease(s, other);
    }
  }

  lemma RunIsLongest(s: string, t: string)
    requires IsTag(t) && t <= s
    ensures t <= s[..TagRun(s)]
  {
    assert forall i | 0 <= i < |t| :: TagChar(s[i]) by {
      assert forall i | 0 <= i < |t| :: s[i] == t[i];
    }
  }

  /** Where `$` can match: at the end, or before a line break at the end. */
  function Line(s: string): string {
    if s != [] && s[|s| - 1] == '\n' then s[..|s| - 1] else s
  }

  /** A line break at the end is not part of the line, and everything else is. */
  lemma LineIs(s: string)
    ensures if exists line: string :: s == line + "\n" then s == Line(s) + "\n" else Line(s) == s
  {
    if line: string :| s == line + "\n" {
      assert s[|s| - 1] == '\n' && s[..|s| - 1] == line;
    } else if s != [] && s[|s| - 1] == '\n' {
      assert s == s[..|s| - 1] + "\n";
    }
  }

  /** re.match(r"^(.+):([\w.-]+)$", s) */
  function ParseImage(s: string): Option<Image> {
    var found := ParseRelease(Line(s));
    if found.Some? && Print(found.value) == Line(s) then found else None
  }

  /** Reading undoes printing: a string is read as (name, tag) exactly when its line is `name:tag`. */
  lemma ParseImageIff(s: string, image: Image)
    ensures ParseImage(s) == Some(image) <==> IsName(image.name) && IsTag(image.tag) && Line(s) == Print(image)
  {
    var line := Line(s);
    ReleaseIsGreedy(line);
    if IsName(image.name) && IsTag(image.tag) && line == Print(image) {
      assert MatchesAtStart(line, image);
      WholeIsGreedy(line, image, ParseRelease(line).value);
    }
  }

  lemma NoColonAfter(line: string, c: nat)
    requires c < |line| && IsTag(line[c + 1..])
    ensures forall i | c < i < |line| :: line[i] != ':'
  {
    assert forall i | c < i < |line| :: line[i] == line[c + 1..][i - c - 1];
  }

  lemma WholeIsGreedy(line: string, image: Image, found: Image)
    requires IsTag(image.tag) && line == Print(image) && MatchesAtStart(line, found) && MatchesAtStart(line, image)
    requires Beats(found, image)
    ensures found == image
  {
    var c := |image.name|;
    PrintShape(image);
    MatchSplits(line, found);
    NoColonAfter(line, c);
    assert |found.name| == c;
  }

  // ---------- the release file ----------

  function Versions(images: seq<string>): map<string, string> {
    if images == [] then map[]
    else
      var before := Versions(images[..|images| - 1]);
      var found := ParseRelease(images[|images| - 1]);
      if found.Some? then before[found.value.name := found.value.tag] else before
  }

  /** The i-th entry of the release file is the last one for its name. */
  ghost predicate LastFor(images: seq<string>, i: nat, image: Image) {
    && i < |images| && ParseRelease(images[i]) == Some(image)
    && forall j | i < j < |images| && ParseRelease(images[j]).Some? :: ParseRelease(images[j]).value.name != image.name
  }

  lemma LastForLonger(images: seq<string>, i: nat, image: Image)
    requires images != [] &&
        (ParseRelease(images[|images| - 1]).Some? ==> ParseRelease(images[|images| - 1]).value.name != image.name)
    ensures LastFor(images, i, image) <==> LastFor(images[..|images| - 1], i, image)
  {
    var before := images[..|images| - 1];
    assert forall j | 0 <= j < |before| :: before[j] == images[j];
  }

  /** A name has a tag exactly when some entry names it, and then the tag of its last entry. */
  lemma {:induction false} VersionsIff(images: seq<string>, name: string, tag: string)
    ensures name in Versions(images) && Versions(images)[name] == tag <==>
        exists i: nat :: LastFor(images, i, Image(name, tag))
  {
    if images != [] {
      var last := |images| - 1;
      var before := images[..last];
      VersionsIff(before, name, tag);
      var found := ParseRelease(images[last]);
      var image := Image(name, tag);
      if found.Some? && found.value.name == name {
        if tag == found.value.tag { assert LastFor(images, last, image); }
        forall i: nat | LastFor(images, i, image) ensures i == last {
        }
      } else {
        forall i: nat ensures LastFor(images, i, image) <==> LastFor(before, i, image) {
          LastForLonger(images, i, image);
        }
      }
    }
  }

  /** What the release file yields are names and tags as the pattern reads them. */
  predicate WellFormed(versions: map<string, string>) {
    forall name | name in versions :: IsName(name) && IsTag(versions[name])
  }

  lemma {:induction false} VersionsWellFormed(images: seq<string>)
    ensures WellFormed(Versions(images))
  {
    if images != [] {
      VersionsWellFormed(images[..|images| - 1]);
      ReleaseIsGreedy(images[|images| - 1]);
    }
  }

  /** parse_release_images_yaml, after the file is loaded: the entries in their order. */
  method ParseReleaseImages(images: seq<string>) returns (versions: map<string, string>)
    ensures versions == Versions(images) && WellFormed(versions)
  {
    versions := map[];
    for i := 0 to |images|
      invariant versions == Versions(images[..i])
    {
      assert images[..i + 1][..i] == images[..i];
      var found := ParseRelease(images[i]);
      if found.Some? {
        versions := versions[found.value.name := found.value.tag];
      }
    }
    assert images[..|images|] == images;
    VersionsWellFormed(images);
  }
}
