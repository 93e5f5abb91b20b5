/** The decisions of auto_update.py: reading a "major.minor.patch" version,
    comparing two versions, picking the newest version the two GitHub URL
    patterns report, and the download URL of a file. */
module AutoUpdate {

  import opened Optional
  import opened Strings

  /** The two raw-file URL patterns, in the order they are tried. */
  const GithubRawUrls: seq<string> := [
    "https://raw.githubusercontent.com/sammcanany/ChicagoTransitBoard/main",
    "https://raw.githubusercontent.com/sammcanany/ChicagoTransitBoard/refs/heads/main"
  ]

  datatype Version = Version(major: nat, minor: nat, patch: nat)

  /** (0, 0, 0): what an unreadable version string gives. */
  const NoVersion := Version(0, 0, 0)

  /** Component i of a split version, "0" when the string has fewer parts. */
  function Component(parts: seq<string>, i: nat): string {
    if i < |parts| then parts[i] else "0"
  }

  /** parse_version: strip, split on '.', pad to three parts with "0", read
      the first three as integers; any part that is not a number gives (0, 0, 0). */
  function VersionOf(versionStr: string): (v: Version)
    ensures Strip(versionStr) == "" ==> v == NoVersion
  {
    var parts := Split(Strip(versionStr), '.');
    var a, b, c := Component(parts, 0), Component(parts, 1), Component(parts, 2);
    if IsDigits(a) && IsDigits(b) && IsDigits(c) then Version(DigitsValue(a), DigitsValue(b), DigitsValue(c))
    else NoVersion
  }

  /** parse_version with its padding loop. */
  method ParseVersion(versionStr: string) returns (v: Version)
    ensures v == VersionOf(versionStr)
  {
    var parts := Split(Strip(versionStr), '.');
    ghost var original := parts;
    while |parts| < 3
      invariant |parts| >= |original|
      invariant forall i :: 0 <= i < |parts| ==> parts[i] == Component(original, i)
      decreases 3 - |parts|
    {
      parts := parts + ["0"];
    }
    var major, minor, patch := parts[0], parts[1], parts[2];
    if IsDigits(major) && IsDigits(minor) && IsDigits(patch) {
      v := Version(DigitsValue(major), DigitsValue(minor), DigitsValue(patch));
    } else {
      v := NoVersion;
    }
  }

  /** Tuple comparison a > b: by major, then minor, then patch. */
  predicate Newer(a: Version, b: Version) {
    a.major > b.major
    || (a.major == b.major && (a.minor > b.minor || (a.minor == b.minor && a.patch > b.patch)))
  }

  /** is_newer_version. */
  predicate IsNewerVersion(remote: string, local: string) {
    Newer(VersionOf(remote), VersionOf(local))
  }

  /** Newer is a strict total order on versions. */
  lemma NewerIsStrictOrder(a: Version, b: Version, c: Version)
    ensures !Newer(a, a)
    ensures Newer(a, b) ==> !Newer(b, a)
    ensures Newer(a, b) && Newer(b, c) ==> Newer(a, c)
    ensures a == b || Newer(a, b) || Newer(b, a)
  {
  }

  /** No version is older than (0, 0, 0). */
  lemma NothingBelowNoVersion(a: Version)
    ensures !Newer(NoVersion, a)
    ensures Newer(a, NoVersion) <==> a != NoVersion
  {
  }

  /** is_newer_version on any two strings: a string is never newer than
      itself, two strings are never newer than each other, and an unreadable
      remote version is never newer. */
  lemma IsNewerVersionShape(remote: string, local: string)
    ensures !IsNewerVersion(local, local)
    ensures IsNewerVersion(remote, local) ==> !IsNewerVersion(local, remote)
    ensures IsNewerVersion(remote, local) ==> VersionOf(remote) != NoVersion
  {
    NewerIsStrictOrder(VersionOf(remote), VersionOf(local), VersionOf(local));
    NothingBelowNoVersion(VersionOf(local));
  }

  /** On written-out versions is_newer_version is the tuple comparison. */
  lemma IsNewerVersionStrings(v: Version, w: Version)
    ensures IsNewerVersion(VersionString(v), VersionString(w)) <==> Newer(v, w)
  {
    VersionRoundTrip(v);
    VersionRoundTrip(w);
  }

  /** The canonical text of a version. */
  function VersionString(v: Version): (s: string)
    ensures |s| >= 5
  {
    NatString(v.major) + "." + NatString(v.minor) + "." + NatString(v.patch)
  }

  lemma DigitsHaveNoDot(s: string)
    requires IsDigits(s)
    ensures '.' !in s
  {
  }

  /** A version string with nothing to strip, read from its parts. */
  lemma VersionOfParts(s: string, parts: seq<string>)
    requires Strip(s) == s && Split(s, '.') == parts
    ensures VersionOf(s) == (if IsDigits(Component(parts, 0)) && IsDigits(Component(parts, 1)) && IsDigits(Component(parts, 2))
                             then Version(DigitsValue(Component(parts, 0)), DigitsValue(Component(parts, 1)), DigitsValue(Component(parts, 2)))
                             else NoVersion)
  {
  }

  /** Splitting three dot-free parts joined by dots. */
  lemma SplitThree(a: string, b: string, c: string)
    requires '.' !in a && '.' !in b && '.' !in c
    ensures Split(a + "." + b + "." + c, '.') == [a, b, c]
  {
    SplitNoSeparator(c, '.');
    SplitPrefix(b, c, '.');
    assert b + "." + c == b + ['.'] + c;
    SplitPrefix(a, b + "." + c, '.');
    assert a + "." + b + "." + c == a + ['.'] + (b + "." + c);
  }

  /** Reading the text of a version gives the version back. */
  lemma VersionRoundTrip(v: Version)
    ensures VersionOf(VersionString(v)) == v
  {
    var a, b, c := NatString(v.major), NatString(v.minor), NatString(v.patch);
    var s := VersionString(v);
    assert s[0] == a[0] && s[|s| - 1] == c[|c| - 1];
    StripNoSpace(s);
    DigitsHaveNoDot(a);
    DigitsHaveNoDot(b);
    DigitsHaveNoDot(c);
    SplitThree(a, b, c);
    VersionOfParts(s, [a, b, c]);
    NatStringValue(v.major);
    NatStringValue(v.minor);
    NatStringValue(v.patch);
  }

  /** Missing parts count as 0: "1.7" reads as (1, 7, 0). */
  lemma VersionPadded()
    ensures VersionOf("1.7") == Version(1, 7, 0)
  {
    StripNoSpace("1.7");
    SplitPrefix("1", "7", '.');
    SplitNoSeparator("7", '.');
    assert "1.7" == "1" + ['.'] + "7";
    VersionOfParts("1.7", ["1", "7"]);
    assert DigitsValue("7") == 7 && DigitsValue("1") == 1 && DigitsValue("0") == 0;
  }

  /** Parts past the third are ignored and surrounding whitespace goes:
      " 1.2.3.4\n" reads as (1, 2, 3). */
  lemma VersionTruncated()
    ensures VersionOf(" 1.2.3.4\n") == Version(1, 2, 3)
  {
    assert StripLeft(" 1.2.3.4\n") == "1.2.3.4\n" by {
      assert " 1.2.3.4\n"[1..] == "1.2.3.4\n";
    }
    assert StripRight("1.2.3.4\n") == "1.2.3.4" by {
      assert "1.2.3.4\n"[..7] == "1.2.3.4";
    }
    StripNoSpace("1.2.3.4");
    VersionOfStripped(" 1.2.3.4\n", "1.2.3.4");
    VersionFourParts();
  }

  lemma VersionOfStripped(s: string, t: string)
    requires Strip(s) == t && Strip(t) == t
    ensures VersionOf(s) == VersionOf(t)
  {
  }

  /** "1.2.3.4" splits into its four parts. */
  lemma SplitFour()
    ensures Split("1.2.3.4", '.') == ["1", "2", "3", "4"]
  {
    SplitNoSeparator("4", '.');
    SplitPrefix("3", "4", '.');
    assert "3.4" == "3" + ['.'] + "4";
    SplitPrefix("2", "3.4", '.');
    assert "2.3.4" == "2" + ['.'] + "3.4";
    SplitPrefix("1", "2.3.4", '.');
    assert "1.2.3.4" == "1" + ['.'] + "2.3.4";
  }

  /** The values of the one-digit numbers the examples use. */
  lemma SmallDigits()
    ensures DigitsValue("0") == 0 && DigitsValue("1") == 1 && DigitsValue("2") == 2 && DigitsValue("3") == 3
  {
  }

  lemma VersionFourParts()
    ensures VersionOf("1.2.3.4") == Version(1, 2, 3)
  {
    StripNoSpace("1.2.3.4");
    SplitFour();
    VersionOfParts("1.2.3.4", ["1", "2", "3", "4"]);
    SmallDigits();
  }

  /** "1..2" has an empty middle part. */
  lemma SplitEmptyPart()
    ensures Split("1..2", '.') == ["1", "", "2"]
  {
    SplitNoSeparator("2", '.');
    SplitPrefix("", "2", '.');
    assert ".2" == "" + ['.'] + "2";
    SplitPrefix("1", ".2", '.');
    assert "1..2" == "1" + ['.'] + ".2";
  }

  /** The first part of "v1.2.3" is "v1". */
  lemma SplitLeadingLetter()
    ensures Split("v1.2.3", '.')[0] == "v1"
  {
    SplitPrefix("v1", "2.3", '.');
    assert "v1.2.3" == "v1" + ['.'] + "2.3";
  }

  /** An empty part, an empty string or a part with anything but digits
      makes the whole version (0, 0, 0). */
  lemma UnreadableVersions()
    ensures VersionOf("") == NoVersion
    ensures VersionOf("1..2") == NoVersion
    ensures VersionOf("v1.2.3") == NoVersion
  {
    assert Strip("") == "";
    assert Split("", '.') == [""];
    StripNoSpace("1..2");
    SplitEmptyPart();
    VersionOfParts("1..2", ["1", "", "2"]);
    StripNoSpace("v1.2.3");
    SplitLeadingLetter();
    assert !IsDigits("v1") by { assert !IsDigit('v'); }
  }

  // ---------------------------------------------------------------------
  // get_remote_version: the newest version across the URL patterns

  /** What the loop carries: the best version text, its triple and which URL gave it. */
  datatype Best = Best(version: Option<string>, tuple: Version, index: Option<nat>)

  /** The stripped text of every response that came back. */
  function Stripped(responses: seq<Option<string>>): (versions: seq<Option<string>>)
    ensures |versions| == |responses|
    ensures forall i :: 0 <= i < |responses| ==> (versions[i].Some? <==> responses[i].Some?)
  {
    seq(|responses|, i requires 0 <= i < |responses| => if responses[i].Some? then Some(Strip(responses[i].value)) else None)
  }

  /** The triple each version text reads as; a failed request reports
      nothing newer than (0, 0, 0). */
  function Triples(versions: seq<Option<string>>): (ts: seq<Version>)
    ensures |ts| == |versions|
    ensures forall i :: 0 <= i < |versions| && versions[i].None? ==> ts[i] == NoVersion
  {
    seq(|versions|, i requires 0 <= i < |versions| => if versions[i].Some? then VersionOf(versions[i].value) else NoVersion)
  }

  /** The best over the first n version texts, given the triple each reads
      as; a version replaces the best only when strictly newer. */
  function BestOf(versions: seq<Option<string>>, reported: seq<Version>, n: nat): (b: Best)
    requires n <= |versions| == |reported|
    ensures b.index.Some? ==> b.index.value < n
  {
    if n == 0 then Best(None, NoVersion, None)
    else
      var b := BestOf(versions, reported, n - 1);
      if versions[n - 1].Some? && Newer(reported[n - 1], b.tuple) then Best(versions[n - 1], reported[n - 1], Some(n - 1))
      else b
  }

  /** What get_remote_version's loop computes over the first n responses: a
      response is the text of a 200 answer, or None for a failed request or
      another status. */
  function BestUpTo(responses: seq<Option<string>>, n: nat): (b: Best)
    requires n <= |responses|
    ensures b.index.Some? ==> b.index.value < n
  {
    BestOf(Stripped(responses), Triples(Stripped(responses)), n)
  }

  /** Entry k is the first of the first n with the greatest triple. */
  predicate FirstNewest(reported: seq<Version>, n: nat, k: nat)
    requires k < n <= |reported|
  {
    && (forall i :: 0 <= i < n ==> !Newer(reported[i], reported[k]))
    && (forall i :: 0 <= i < k ==> Newer(reported[k], reported[i]))
  }

  /** The best is None exactly when no response reads above (0, 0, 0). */
  lemma {:induction false} BestOfNone(versions: seq<Option<string>>, reported: seq<Version>, n: nat)
    requires n <= |versions| == |reported|
    requires forall i :: 0 <= i < |versions| && versions[i].None? ==> reported[i] == NoVersion
    ensures BestOf(versions, reported, n).version.Some? <==> BestOf(versions, reported, n).index.Some?
    ensures BestOf(versions, reported, n).index.None? <==> forall i :: 0 <= i < n ==> reported[i] == NoVersion
    ensures BestOf(versions, reported, n).index.None? <==> BestOf(versions, reported, n).tuple == NoVersion
    decreases n
  {
    if n > 0 {
      BestOfNone(versions, reported, n - 1);
    }
  }

  /** Otherwise the best is the first response with the greatest triple: no
      response is newer, and every earlier one is older. */
  lemma {:induction false} BestOfNewest(versions: seq<Option<string>>, reported: seq<Version>, n: nat)
    requires n <= |versions| == |reported|
    requires forall i :: 0 <= i < |versions| && versions[i].None? ==> reported[i] == NoVersion
    requires BestOf(versions, reported, n).index.Some?
    ensures BestOf(versions, reported, n).version == versions[BestOf(versions, reported, n).index.value]
    ensures versions[BestOf(versions, reported, n).index.value].Some?
    ensures BestOf(versions, reported, n).tuple == reported[BestOf(versions, reported, n).index.value]
    ensures FirstNewest(reported, n, BestOf(versions, reported, n).index.value)
    decreases n
  {
    var b := BestOf(versions, reported, n - 1);
    var t := reported[n - 1];
    BestOfNone(versions, reported, n - 1);
    if versions[n - 1].Some? && Newer(t, b.tuple) {
      if b.index.Some? {
        BestOfNewest(versions, reported, n - 1);
        assert FirstNewest(reported, n - 1, b.index.value);
      }
      forall i | 0 <= i < n - 1 ensures Newer(t, reported[i]) && !Newer(reported[i], t) {
        if b.index.Some? {
          assert !Newer(reported[i], b.tuple);
        } else {
          assert reported[i] == NoVersion;
        }
      }
      assert FirstNewest(reported, n, n - 1);
    } else {
      var k := b.index.value;
      BestOfNewest(versions, reported, n - 1);
      assert FirstNewest(reported, n - 1, k);
      assert FirstNewest(reported, n, k);
    }
  }

  /** get_remote_version's choice: None exactly when no response reads above
      (0, 0, 0); otherwise the stripped text of the first response with the
      greatest version, so an earlier URL wins a tie. */
  lemma RemoteVersionChoice(responses: seq<Option<string>>)
    ensures BestUpTo(responses, |responses|).version.None?
        <==> forall i :: 0 <= i < |responses| ==> Triples(Stripped(responses))[i] == NoVersion
    ensures BestUpTo(responses, |responses|).index.Some? ==>
              var k := BestUpTo(responses, |responses|).index.value;
              responses[k].Some? && BestUpTo(responses, |responses|).version == Some(Strip(responses[k].value))
              && FirstNewest(Triples(Stripped(responses)), |responses|, k)
  {
    var vs := Stripped(responses);
    var ts := Triples(vs);
    BestOfNone(vs, ts, |responses|);
    if BestUpTo(responses, |responses|).index.Some? {
      BestOfNewest(vs, ts, |responses|);
    }
  }

  class Updater {
    /** _working_url_base: the URL pattern that last gave the newest version. */
    var workingUrlBase: Option<string>

    /** The remembered base is always one of the URL patterns. */
    ghost predicate Valid()
      reads this
    {
      workingUrlBase.Some? ==> workingUrlBase.value in GithubRawUrls
    }

    constructor()
      ensures Valid() && workingUrlBase == None
    {
      workingUrlBase := None;
    }

    /** get_github_raw_url: the remembered base, or the first pattern when
        none is remembered, then "/" and the file name. */
    function RawUrl(filename: string): (url: string)
      reads this
      ensures workingUrlBase.Some? && workingUrlBase.value != "" ==> url == workingUrlBase.value + "/" + filename
      ensures (workingUrlBase.None? || workingUrlBase.value == "") ==> url == GithubRawUrls[0] + "/" + filename
      ensures Valid() ==> exists k :: 0 <= k < |GithubRawUrls| && url == GithubRawUrls[k] + "/" + filename
    {
      var base := if workingUrlBase.Some? && workingUrlBase.value != "" then workingUrlBase.value else GithubRawUrls[0];
      base + "/" + filename
    }

    /** get_remote_version over the answers for the two URL patterns, in
        order: returns the newest version text and remembers its pattern. */
    method GetRemoteVersion(responses: seq<Option<string>>) returns (bestVersion: Option<string>)
      requires |responses| == |GithubRawUrls|
      requires Valid()
      modifies this
      ensures Valid()
      ensures bestVersion == BestUpTo(responses, |responses|).version
      ensures BestUpTo(responses, |responses|).index.Some? ==>
                workingUrlBase == Some(GithubRawUrls[BestUpTo(responses, |responses|).index.value])
      ensures BestUpTo(responses, |responses|).index.None? ==> workingUrlBase == old(workingUrlBase)
      ensures BestUpTo(responses, |responses|).index.Some? ==>
                forall f :: RawUrl(f) == GithubRawUrls[BestUpTo(responses, |responses|).index.value] + "/" + f
    {
      bestVersion := None;
      var bestVersionTuple := NoVersion;
      var bestUrlBase: Option<string> := None;
      ghost var versions := Stripped(responses);
      ghost var reported := Triples(versions);
      for i := 0 to |GithubRawUrls|
        invariant workingUrlBase == old(workingUrlBase)
        invariant bestVersion == BestOf(versions, reported, i).version
        invariant bestVersionTuple == BestOf(versions, reported, i).tuple
        invariant BestOf(versions, reported, i).index.None? ==> bestUrlBase == None
        invariant BestOf(versions, reported, i).index.Some? ==>
                    bestUrlBase == Some(GithubRawUrls[BestOf(versions, reported, i).index.value])
      {
        var urlBase := GithubRawUrls[i];
        if responses[i].Some? {
          var version := Strip(responses[i].value);
          assert versions[i] == Some(version);
          var versionTuple := ParseVersion(version);
          assert reported[i] == versionTuple;
          if Newer(versionTuple, bestVersionTuple) {
            bestVersion := Some(version);
            bestVersionTuple := versionTuple;
            bestUrlBase := Some(urlBase);
          }
        }
      }
      assert GithubRawUrls[0] != "" && GithubRawUrls[1] != "";
      if bestUrlBase.Some? && bestUrlBase.value != "" {
        workingUrlBase := bestUrlBase;
      }
    }
  }
}
