/** Foreground-application detection of the use-case demos (`ProcessManager`): the lines of
    a `ps` listing are filtered to foreground user processes, each kept line gives a package
    record with a `u` value, and the visible application is the eligible package with the
    largest `u`, unless a launcher is in the foreground. Running `ps` and reading its output
    are not modelled: the method starts from the list of lines. */
module Processes {
  import opened Wrappers
  import opened JavaInt
  import opened ArgMax

  // ---------------------------------------------------------------------------
  // Text helpers (`startsWith`, `contains`, splitting on `\s+`)

  predicate StartsWith(s: string, prefix: string) {
    |prefix| <= |s| && s[..|prefix|] == prefix
  }

  /** `sub` occurs in `s` at some position. */
  predicate Contains(s: string, sub: string) {
    StartsWith(s, sub) || (|s| > 0 && Contains(s[1..], sub))
  }

  /** The characters Java's regular expression class `\s` matches. */
  predicate IsSpace(c: char) {
    c == ' ' || c == '\t' || c == '\n' || c == '\U{000B}' || c == '\U{000C}' || c == '\r'
  }

  predicate NoSpace(s: string) {
    forall i :: 0 <= i < |s| ==> !IsSpace(s[i])
  }

  /** The length of the run of non-space characters that starts `s`. */
  function WordLength(s: string): (n: nat)
    ensures n <= |s|
    ensures forall i :: 0 <= i < n ==> !IsSpace(s[i])
    ensures n < |s| ==> IsSpace(s[n])
  {
    if |s| == 0 || IsSpace(s[0]) then 0 else 1 + WordLength(s[1..])
  }

  /** The whitespace-separated tokens of `s`, in order. For a line that starts with a non-space
      character (every line the filter keeps starts with "u0"), `split("\\s+", 13)[12]` followed
      by `split("\\s+")` yields tokens 12, 13, 14, ... of this sequence. */
  function Tokens(s: string): (t: seq<string>)
    ensures forall i :: 0 <= i < |t| ==> |t[i]| > 0 && NoSpace(t[i])
    decreases |s|
  {
    if |s| == 0 then []
    else if IsSpace(s[0]) then Tokens(s[1..])
    else
      var n := WordLength(s);
      [s[..n]] + Tokens(s[n..])
  }

  /** Non-empty words written out with one space between them. */
  function JoinWords(w: seq<string>): string {
    if |w| == 0 then ""
    else if |w| == 1 then w[0]
    else w[0] + " " + JoinWords(w[1..])
  }

  lemma WordLengthOfWord(a: string, b: string)
    requires NoSpace(a)
    requires |b| == 0 || IsSpace(b[0])
    ensures WordLength(a + b) == |a|
    decreases |a|
  {
    if |a| > 0 {
      assert (a + b)[1..] == a[1..] + b;
      WordLengthOfWord(a[1..], b);
    }
  }

  /** Splitting undoes joining: the tokenizer reads back exactly the words that were written. */
  lemma {:induction false} TokensOfJoin(w: seq<string>)
    requires forall i :: 0 <= i < |w| ==> |w[i]| > 0 && NoSpace(w[i])
    ensures Tokens(JoinWords(w)) == w
  {
    if |w| == 1 {
      WordLengthOfWord(w[0], "");
      assert w[0] + "" == w[0];
      assert w[0][|w[0]|..] == "";
    } else if |w| > 1 {
      var rest := JoinWords(w[1..]);
      var s := w[0] + " " + rest;
      assert s == w[0] + (" " + rest);
      WordLengthOfWord(w[0], " " + rest);
      assert s[..|w[0]|] == w[0];
      assert s[|w[0]|..] == " " + rest;
      assert (" " + rest)[1..] == rest;
      TokensOfJoin(w[1..]);
      assert w == [w[0]] + w[1..];
    }
  }

  /** The index of the first `c` in `s`, or `|s|` when there is none. */
  function FirstIndexOf(s: string, c: char): (i: nat)
    ensures i <= |s|
    ensures i < |s| ==> s[i] == c
    ensures forall j :: 0 <= j < i ==> s[j] != c
  {
    if |s| == 0 || s[0] == c then 0 else 1 + FirstIndexOf(s[1..], c)
  }

  // ---------------------------------------------------------------------------
  // Parsing one line of the process listing

  /** `PkgInfo`: a package name and its `u` value (0 until a value is parsed). */
  datatype PkgInfo = PkgInfo(name: string, u: int)

  /** The `u` value in an info field `…:<u>,…`: the text after the first ':' up to the first ','
      read as an `int`; 0 when there is no ':' or that text is not an `int` (the exceptions
      the parser catches). */
  function UField(info: string): (u: int)
    ensures IsInt32(u)
  {
    var colon := FirstIndexOf(info, ':');
    if colon == |info| then 0
    else
      var rest := info[colon + 1..];
      match ParseInt(rest[..FirstIndexOf(rest, ',')])
      case Some(v) => v
      case None => 0
  }

  /** The record a line contributes: only lines starting with "u0" and containing " fg " are
      read; token 14 is the package, recorded only when it contains a '.'; token 15 is the info
      field. A missing package token ends the line without a record; a missing info token leaves
      the record (already added) with `u` 0. */
  function ParseLine(line: string): (r: Option<PkgInfo>)
    ensures !(StartsWith(line, "u0") && Contains(line, " fg ")) ==> r == None
    ensures r.Some? ==> && |Tokens(line)| >= 15 && r.value.name == Tokens(line)[14]
                        && '.' in r.value.name && IsInt32(r.value.u)
    ensures r.Some? && |Tokens(line)| < 16 ==> r.value.u == 0
  {
    if !(StartsWith(line, "u0") && Contains(line, " fg ")) then None
    else
      var t := Tokens(line);
      if |t| < 15 || '.' !in t[14] then None
      else Some(PkgInfo(t[14], if |t| < 16 then 0 else UField(t[15])))
  }

  /** The `packageInfoList` built from the lines, in order. */
  function Records(lines: seq<string>): (recs: seq<PkgInfo>)
    ensures |recs| <= |lines|
  {
    if |lines| == 0 then []
    else
      var recs := Records(lines[..|lines| - 1]);
      match ParseLine(lines[|lines| - 1])
      case Some(pi) => recs + [pi]
      case None => recs
  }

  /** Every record comes from a kept line, names a package with a '.', and has an `int` `u`. */
  lemma {:induction false} RecordsWellFormed(lines: seq<string>)
    ensures forall k :: 0 <= k < |Records(lines)| ==>
              '.' in Records(lines)[k].name && IsInt32(Records(lines)[k].u) &&
              exists j :: 0 <= j < |lines| && ParseLine(lines[j]) == Some(Records(lines)[k])
  {
    if |lines| > 0 {
      var init := lines[..|lines| - 1];
      RecordsWellFormed(init);
      forall k | 0 <= k < |Records(init)|
        ensures exists j :: 0 <= j < |lines| && ParseLine(lines[j]) == Some(Records(init)[k])
      {
        var j :| 0 <= j < |init| && ParseLine(init[j]) == Some(Records(init)[k]);
        assert lines[j] == init[j];
      }
    }
  }

  /** Lines that fail the "u0" / " fg " filter contribute nothing. */
  lemma FilteredLinesIgnored(lines: seq<string>, line: string)
    requires !(StartsWith(line, "u0") && Contains(line, " fg "))
    ensures Records(lines + [line]) == Records(lines)
  {
    assert (lines + [line])[..|lines|] == lines;
  }

  // ---------------------------------------------------------------------------
  // Choosing the visible application

  /** A record the selection may choose: not the caller's own package and not a known
      package without a user interface. */
  predicate Eligible(r: PkgInfo, own: string, known: seq<string>) {
    r.name != own && r.name !in known
  }

  predicate HasLauncher(recs: seq<PkgInfo>, launchers: seq<string>) {
    exists k | 0 <= k < |recs| :: recs[k].name in launchers
  }

  /** What the selection loop compares: `u` for an eligible record, 0 (never above the
      starting value) for any other. */
  function Scores(recs: seq<PkgInfo>, own: string, known: seq<string>): (s: seq<real>)
    ensures |s| == |recs|
  {
    seq(|recs|, k requires 0 <= k < |recs| => if Eligible(recs[k], own, known) then recs[k].u as real else 0.0)
  }

  /** The visible application: none when a launcher is listed; otherwise the first record with
      the greatest score above 0, that is, the selection loop is the arg-max decoding with
      sentinel 0. */
  function Selection(recs: seq<PkgInfo>, own: string, known: seq<string>, launchers: seq<string>): (r: Option<string>)
    ensures r.Some? ==> !HasLauncher(recs, launchers)
    ensures r.Some? ==> exists k :: 0 <= k < |recs| && recs[k].name == r.value && Eligible(recs[k], own, known) && recs[k].u > 0
  {
    if HasLauncher(recs, launchers) then None
    else
      var s := Scores(recs, own, known);
      var pos := FirstMaxIndex(s, 0.0);
      FirstMaxIndexCorrect(s, 0.0);
      if pos == -1 then None
      else
        assert Eligible(recs[pos], own, known) && recs[pos].u > 0 by {
          assert s[pos] > 0.0;
        }
        Some(recs[pos].name)
  }

  /** `recs[pos]` is the first eligible record with the strictly greatest positive `u`. */
  predicate IsBestRecord(recs: seq<PkgInfo>, own: string, known: seq<string>, pos: int) {
    && 0 <= pos < |recs|
    && Eligible(recs[pos], own, known)
    && recs[pos].u > 0
    && (forall j :: 0 <= j < |recs| && Eligible(recs[j], own, known) ==> recs[j].u <= recs[pos].u)
    && (forall j :: 0 <= j < pos && Eligible(recs[j], own, known) ==> recs[j].u < recs[pos].u)
  }

  /** The selection rule stated without scores: a listed launcher means no result; otherwise
      the result is the best eligible record's name, and there is none exactly when no
      eligible record has a positive `u`. */
  lemma SelectionMeaning(recs: seq<PkgInfo>, own: string, known: seq<string>, launchers: seq<string>)
    ensures HasLauncher(recs, launchers) ==> Selection(recs, own, known, launchers) == None
    ensures !HasLauncher(recs, launchers) ==>
              (Selection(recs, own, known, launchers) == None <==>
                 forall j :: 0 <= j < |recs| && Eligible(recs[j], own, known) ==> recs[j].u <= 0)
    ensures Selection(recs, own, known, launchers).Some? ==>
              exists pos :: IsBestRecord(recs, own, known, pos) && recs[pos].name == Selection(recs, own, known, launchers).value
  {
    var s := Scores(recs, own, known);
    FirstMaxIndexCorrect(s, 0.0);
    var pos := FirstMaxIndex(s, 0.0);
    if pos != -1 {
      assert IsBestRecord(recs, own, known, pos) by {
        forall j | 0 <= j < |recs| && Eligible(recs[j], own, known)
          ensures recs[j].u <= recs[pos].u
        {
          assert s[j] <= s[pos];
        }
        forall j | 0 <= j < pos && Eligible(recs[j], own, known)
          ensures recs[j].u < recs[pos].u
        {
          assert s[j] < s[pos];
        }
      }
    } else {
      forall j | 0 <= j < |recs| && Eligible(recs[j], own, known)
        ensures recs[j].u <= 0
      {
        assert s[j] <= 0.0;
      }
    }
  }

  /** The list of known packages without a user interface, as `initialize` builds it. */
  const KNOWN_PACKAGES: seq<string> := [
    "com.android.systemui", "org.cyanogenmod.audiofx", "com.android.incallui",
    "com.google.android.gms.persistent", "org.cyanogenmod.theme.chooser", "com.android.smspush",
    "com.google.android.googlequicksearchbox:interactor", "com.google.android.gms"]

  /** The list of known launchers, as `initialize` builds it. */
  const LAUNCHERS: seq<string> := ["com.s7.galaxy.launcher", "com.android.launcher"]

  class ProcessManager {
    /** `mContext.getPackageName()`: the caller's own package. */
    const packageName: string
    var knownPackages: seq<string>
    var launchers: seq<string>

    constructor (packageName: string)
      ensures this.packageName == packageName
      ensures knownPackages == KNOWN_PACKAGES && launchers == LAUNCHERS
    {
      this.packageName := packageName;
      knownPackages := [];
      launchers := [];
      new;
      Initialize();
    }

    /** `initialize`: fill both lists, one `add` per entry. */
    method Initialize()
      modifies this
      ensures knownPackages == KNOWN_PACKAGES && launchers == LAUNCHERS
    {
      knownPackages := [];
      knownPackages := knownPackages + ["com.android.systemui"];
      knownPackages := knownPackages + ["org.cyanogenmod.audiofx"];
      knownPackages := knownPackages + ["com.android.incallui"];
      knownPackages := knownPackages + ["com.google.android.gms.persistent"];
      knownPackages := knownPackages + ["org.cyanogenmod.theme.chooser"];
      knownPackages := knownPackages + ["com.android.smspush"];
      knownPackages := knownPackages + ["com.google.android.googlequicksearchbox:interactor"];
      knownPackages := knownPackages + ["com.google.android.gms"];

      launchers := [];
      launchers := launchers + ["com.s7.galaxy.launcher"];
      launchers := launchers + ["com.android.launcher"];
    }

    /** The application `getVisibleApplication` reports for a given process listing. */
    function VisibleApplication(lines: seq<string>): Option<string>
      reads this
    {
      Selection(Records(lines), packageName, knownPackages, launchers)
    }

    /** `getVisibleApplication`, from the lines of the listing onward: build the records, look
        for a launcher, then keep the first eligible record whose `u` beats the best so far
        (starting from 0). */
    method GetVisibleApplication(lines: seq<string>) returns (result: Option<string>)
      ensures result == Selection(Records(lines), packageName, knownPackages, launchers)
    {
      var packageInfoList: seq<PkgInfo> := [];
      for k := 0 to |lines|
        invariant packageInfoList == Records(lines[..k])
      {
        assert lines[..k + 1][..k] == lines[..k];
        match ParseLine(lines[k]) {
          case Some(pi) => packageInfoList := packageInfoList + [pi];
          case None =>
        }
      }
      assert lines[..|lines|] == lines;

      var foundLauncher := false;
      var k := 0;
      while k < |packageInfoList|
        invariant 0 <= k <= |packageInfoList|
        invariant forall j :: 0 <= j < k ==> packageInfoList[j].name !in launchers
      {
        if packageInfoList[k].name in launchers {
          foundLauncher := true;
          break;
        }
        k := k + 1;
      }
      assert foundLauncher == HasLauncher(packageInfoList, launchers);

      var pos := -1;
      var value := 0;
      if !foundLauncher {
        ghost var scores := Scores(packageInfoList, packageName, knownPackages);
        for i := 0 to |packageInfoList|
          invariant -1 <= pos < i
          invariant IsFirstMaxIndex(scores[..i], 0.0, pos)
          invariant value as real == ConfidenceAt(scores[..i], 0.0, pos)
          invariant value >= 0
        {
          assert scores[..i + 1] == scores[..i] + [scores[i]];
          var pkgInfo := packageInfoList[i];
          if packageName != pkgInfo.name && pkgInfo.name !in knownPackages && pkgInfo.u > value {
            value := pkgInfo.u;
            pos := i;
          }
        }
        assert scores[..|packageInfoList|] == scores;
        FirstMaxIndexCorrect(scores, 0.0);
        FirstMaxIndexUnique(scores, 0.0, pos, FirstMaxIndex(scores, 0.0));
      }

      if pos >= 0 {
        result := Some(packageInfoList[pos].name);
      } else {
        result := None;
      }
    }
  }
}
