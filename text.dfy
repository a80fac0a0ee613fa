/**
  The few .NET string and path operations the plugin-discovery code relies on:
  `String.Trim`, `String.StartsWith` (as an ordinal prefix test), `String.ToLower` and
  `FileInfo.Extension` (which is `Path.GetExtension` of the full name).
 */
module Text {

  import opened Wrappers

  /** The characters `Char.IsWhiteSpace` accepts from Latin-1 and the Unicode separators. */
  predicate IsWhiteSpace(c: char)
  {
    c == ' ' || ('\t' <= c <= '\r') || c == '\U{0085}' || c == '\U{00A0}' || c == '\U{1680}'
    || ('\U{2000}' <= c <= '\U{200A}') || c == '\U{2028}' || c == '\U{2029}'
    || c == '\U{202F}' || c == '\U{205F}' || c == '\U{3000}'
  }

  /** Leading white space removed. */
  function TrimStart(s: string): string
  {
    if s != [] && IsWhiteSpace(s[0]) then TrimStart(s[1..]) else s
  }

  /** Trailing white space removed. */
  function TrimEnd(s: string): string
  {
    if s != [] && IsWhiteSpace(s[|s| - 1]) then TrimEnd(s[..|s| - 1]) else s
  }

  /** `String.Trim()`: leading and trailing white space removed. */
  function Trim(s: string): string
  {
    TrimEnd(TrimStart(s))
  }

  /** What `TrimStart` drops is all white space, and what it keeps is a suffix that does not start with any. */
  lemma {:induction false} TrimStartSpec(s: string)
    ensures |TrimStart(s)| <= |s| && TrimStart(s) == s[|s| - |TrimStart(s)|..]
    ensures forall i :: 0 <= i < |s| - |TrimStart(s)| ==> IsWhiteSpace(s[i])
    ensures TrimStart(s) == [] || !IsWhiteSpace(TrimStart(s)[0])
  {
    if s != [] && IsWhiteSpace(s[0]) {
      var rest := s[1..];
      TrimStartSpec(rest);
      var t := TrimStart(rest);
      assert TrimStart(s) == t;
      assert rest[|rest| - |t|..] == s[|s| - |t|..];
      forall i | 0 <= i < |s| - |t| ensures IsWhiteSpace(s[i]) {
        if i > 0 {
          assert s[i] == rest[i - 1];
        }
      }
    }
  }

  /** What `TrimEnd` drops is all white space, and what it keeps is a prefix that does not end with any. */
  lemma {:induction false} TrimEndSpec(s: string)
    ensures |TrimEnd(s)| <= |s| && TrimEnd(s) == s[..|TrimEnd(s)|]
    ensures forall i :: |TrimEnd(s)| <= i < |s| ==> IsWhiteSpace(s[i])
    ensures TrimEnd(s) == [] || !IsWhiteSpace(TrimEnd(s)[|TrimEnd(s)| - 1])
  {
    if s != [] && IsWhiteSpace(s[|s| - 1]) {
      var init := s[..|s| - 1];
      TrimEndSpec(init);
      var t := TrimEnd(init);
      assert TrimEnd(s) == t;
      assert init[..|t|] == s[..|t|];
      forall i | |t| <= i < |s| ensures IsWhiteSpace(s[i]) {
        if i < |s| - 1 {
          assert s[i] == init[i];
        }
      }
    }
  }

  /**
    `Trim` keeps the slice `s[i..j]` between the leading and the trailing white space: all
    that is dropped is white space, and the result neither starts nor ends with any.
   */
  lemma TrimSpec(s: string) returns (i: nat, j: nat)
    ensures i <= j <= |s| && Trim(s) == s[i..j]
    ensures forall k :: 0 <= k < i || j <= k < |s| ==> IsWhiteSpace(s[k])
    ensures Trim(s) == [] || (!IsWhiteSpace(Trim(s)[0]) && !IsWhiteSpace(Trim(s)[|Trim(s)| - 1]))
  {
    var t := TrimStart(s);
    TrimStartSpec(s);
    TrimEndSpec(t);
    var r := TrimEnd(t);
    i, j := |s| - |t|, |s| - |t| + |r|;
    assert r == s[i..j];
    forall k | j <= k < |s| ensures IsWhiteSpace(s[k]) {
      assert s[k] == t[k - i];
    }
  }

  /** Trimming a second time changes nothing. */
  lemma TrimIdempotent(s: string)
    ensures Trim(Trim(s)) == Trim(s)
  {
    var _, _ := TrimSpec(s);
  }

  /**
    `String.StartsWith`, taken as an ordinal prefix test; the one-argument overload the
    source calls compares under the current culture, which ignores characters such as the
    soft hyphen.
   */
  predicate StartsWith(s: string, prefix: string)
  {
    |prefix| <= |s| && s[..|prefix|] == prefix
  }

  /** `Char.ToLower` restricted to the ASCII letters. */
  function LowerChar(c: char): (r: char)
    ensures ('A' <= c <= 'Z') ==> 'a' <= r <= 'z' && r as int - 'a' as int == c as int - 'A' as int
    ensures !('A' <= c <= 'Z') ==> r == c
  {
    if 'A' <= c <= 'Z' then (c as int - 'A' as int + 'a' as int) as char else c
  }

  function Lower(s: string): string
  {
    seq(|s|, i requires 0 <= i < |s| => LowerChar(s[i]))
  }

  /** Characters that end the search for an extension: directory and volume separators. */
  predicate IsSeparator(c: char)
  {
    c == '\\' || c == '/' || c == ':'
  }

  /**
    The position of the dot that starts the extension, searching `path[..i]` from the end
    and giving up at the first separator.
   */
  function DotBefore(path: string, i: nat): (r: Option<nat>)
    requires i <= |path|
    ensures r.Some? ==> r.value < i
    decreases i
  {
    if i == 0 then None
    else if path[i - 1] == '.' then Some(i - 1)
    else if IsSeparator(path[i - 1]) then None
    else DotBefore(path, i - 1)
  }

  /** A dot found is a dot, and nothing between it and `i` is a dot or a separator. */
  lemma {:induction false} DotBeforeSpec(path: string, i: nat)
    requires i <= |path|
    ensures DotBefore(path, i).Some? ==> DotBefore(path, i).value < i && path[DotBefore(path, i).value] == '.'
    ensures DotBefore(path, i).Some? ==>
      forall j :: DotBefore(path, i).value < j < i ==> path[j] != '.' && !IsSeparator(path[j])
    decreases i
  {
    if i > 0 && path[i - 1] != '.' && !IsSeparator(path[i - 1]) {
      DotBeforeSpec(path, i - 1);
    }
  }

  /** `Path.GetExtension`: from the last dot of the file name on, or empty when that dot ends the path. */
  function Extension(path: string): (r: string)
  {
    match DotBefore(path, |path|)
    case None => ""
    case Some(k) => if k != |path| - 1 then path[k..] else ""
  }

  /** The test the discovery code applies to every enumerated file. */
  predicate HasGhaExtension(path: string)
  {
    Lower(Extension(path)) == ".gha"
  }

  lemma {:induction false} DotBeforeFinds(path: string, k: nat, i: nat)
    requires k < i <= |path| && path[k] == '.'
    requires forall j :: k < j < i ==> path[j] != '.' && !IsSeparator(path[j])
    ensures DotBefore(path, i) == Some(k)
    decreases i
  {
    if i - 1 != k {
      DotBeforeFinds(path, k, i - 1);
    }
  }

  /**
    A file passes the extension test exactly when its name ends in ".gha" in any letter case;
    a longer extension that merely starts with ".gha" (".ghax") does not.
   */
  lemma GhaExtensionIff(path: string)
    ensures HasGhaExtension(path) <==> |path| >= 4 && Lower(path[|path| - 4..]) == ".gha"
  {
    var n := |path|;
    if HasGhaExtension(path) {
      DotBeforeSpec(path, n);
      var k := DotBefore(path, n).value;
      assert Extension(path) == path[k..];
      assert |Lower(path[k..])| == 4;
    }
    if n >= 4 && Lower(path[n - 4..]) == ".gha" {
      var tail := path[n - 4..];
      assert Lower(tail)[0] == '.' && Lower(tail)[1] == 'g' && Lower(tail)[2] == 'h' && Lower(tail)[3] == 'a';
      assert LowerChar(tail[0]) == '.';
      assert LowerChar(tail[1]) == 'g' && LowerChar(tail[2]) == 'h' && LowerChar(tail[3]) == 'a';
      assert path[n - 4] == '.';
      DotBeforeFinds(path, n - 4, n);
    }
  }

  lemma GhaxIsRejected()
    ensures !HasGhaExtension("plugin.ghax")
    ensures HasGhaExtension("C:\\Libraries\\Plugin.GHA")
  {
    var ghax := "plugin.ghax";
    GhaExtensionIff(ghax);
    assert ghax[7..][0] == 'g' && Lower(ghax[7..])[0] == LowerChar('g') == 'g';
    var upper := "C:\\Libraries\\Plugin.GHA";
    var tail := upper[|upper| - 4..];
    assert tail == ".GHA";
    assert Lower(tail) == [LowerChar('.'), LowerChar('G'), LowerChar('H'), LowerChar('A')];
    GhaExtensionIff(upper);
  }
}
