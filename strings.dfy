/**
 * The three string built-ins the job handlers rely on, with the semantics of
 * the JavaScript runtime they run on:
 *  - `String.prototype.replace` with a string pattern, which replaces only
 *    the FIRST occurrence;
 *  - Node's POSIX `path.extname` (and `path.parse(..).ext`, which computes the
 *    same suffix on every name that passes the extension test, the only
 *    names it is applied to);
 *  - `RegExp.prototype.test` for the unanchored pattern `/.docx|.pdf/`, where
 *    `.` stands for any character except a line terminator.
 */
module Strings {

  /** `p` occurs in `s` starting at index `i`. */
  predicate OccursAt(s: string, p: string, i: int)
  {
    0 <= i && i + |p| <= |s| && s[i..i + |p|] == p
  }

  /** The first index at or after `from` where `p` occurs in `s`, or -1. */
  function IndexFrom(s: string, p: string, from: nat): (r: int)
    requires from <= |s|
    ensures r == -1 || (from <= r && OccursAt(s, p, r))
    ensures r == -1 ==> forall j :: from <= j <= |s| ==> !OccursAt(s, p, j)
    ensures r != -1 ==> forall j :: from <= j < r ==> !OccursAt(s, p, j)
    decreases |s| - from
  {
    if from + |p| > |s| then -1
    else if s[from..from + |p|] == p then from
    else IndexFrom(s, p, from + 1)
  }

  /** `s.indexOf(p)`: the first occurrence of `p` in `s`, or -1. */
  function IndexOf(s: string, p: string): (r: int)
    ensures r == -1 || OccursAt(s, p, r)
    ensures r == -1 ==> forall j :: 0 <= j <= |s| ==> !OccursAt(s, p, j)
    ensures r != -1 ==> forall j :: 0 <= j < r ==> !OccursAt(s, p, j)
  {
    IndexFrom(s, p, 0)
  }

  /** `s.replace(p, rep)` for a string pattern `p` and a replacement `rep`
      free of `$` patterns: only the first occurrence is replaced. */
  function ReplaceFirst(s: string, p: string, rep: string): (r: string)
    ensures |r| == |s| || |r| == |s| - |p| + |rep|
  {
    var i := IndexOf(s, p);
    if i < 0 then s else s[..i] + rep + s[i + |p|..]
  }

  /** The occurrence `replace` rewrites is the leftmost one, and a string
      without the pattern comes back as it is. */
  lemma ReplaceFirstLeftmost(s: string, p: string, rep: string, i: int)
    ensures (forall j :: 0 <= j <= |s| ==> !OccursAt(s, p, j)) ==> ReplaceFirst(s, p, rep) == s
    ensures OccursAt(s, p, i) && (forall j :: 0 <= j < i ==> !OccursAt(s, p, j)) ==>
              ReplaceFirst(s, p, rep) == s[..i] + rep + s[i + |p|..]
  {
    if OccursAt(s, p, i) && (forall j :: 0 <= j < i ==> !OccursAt(s, p, j)) {
      var k := IndexOf(s, p);
      assert k != -1 by { assert i <= |s|; }
      assert k == i;
    }
  }

  /** Index `k` holds the first space of `s`. */
  predicate FirstSpaceAt(s: string, k: int)
  {
    0 <= k < |s| && s[k] == ' ' && forall j :: 0 <= j < k ==> s[j] != ' '
  }

  /** `name.replace(' ', '_')` changes exactly one character, the first space,
      and leaves every later space in place. */
  lemma FirstSpaceToUnderscore(name: string)
    ensures |ReplaceFirst(name, " ", "_")| == |name|
    ensures forall k :: 0 <= k < |name| ==>
              ReplaceFirst(name, " ", "_")[k] == if FirstSpaceAt(name, k) then '_' else name[k]
  {
    var i := IndexOf(name, " ");
    var r := ReplaceFirst(name, " ", "_");
    forall k | 0 <= k < |name|
      ensures OccursAt(name, " ", k) <==> name[k] == ' '
    {
      assert name[k..k + 1] == [name[k]];
    }
    if i >= 0 {
      assert r == name[..i] + "_" + name[i + 1..];
      forall k | 0 <= k < |name|
        ensures r[k] == if FirstSpaceAt(name, k) then '_' else name[k]
      {
        if k < i {
          assert r[k] == name[k];
          assert !OccursAt(name, " ", k);
        } else if k == i {
          assert FirstSpaceAt(name, k);
        } else {
          assert r[k] == name[k];
          assert name[i] == ' ';
        }
      }
    }
  }

  /** When the pattern already occurs in `a`, replacing in `a + b` leaves the
      appended part `b` untouched. */
  lemma ReplaceFirstInPrefix(a: string, b: string, p: string, rep: string)
    requires IndexOf(a, p) >= 0
    ensures ReplaceFirst(a + b, p, rep) == ReplaceFirst(a, p, rep) + b
  {
    var i := IndexOf(a, p);
    var ab := a + b;
    assert ab[i..i + |p|] == a[i..i + |p|];
    assert OccursAt(ab, p, i);
    forall j | 0 <= j < i
      ensures !OccursAt(ab, p, j)
    {
      assert !OccursAt(a, p, j);
      assert ab[j..j + |p|] == a[j..j + |p|];
    }
    var k := IndexOf(ab, p);
    assert k != -1;
    assert k <= i;
    assert k == i;
    calc {
      ReplaceFirst(ab, p, rep);
      ab[..i] + rep + ab[i + |p|..];
      { assert ab[..i] == a[..i]; assert ab[i + |p|..] == a[i + |p|..] + b; }
      a[..i] + rep + (a[i + |p|..] + b);
      ReplaceFirst(a, p, rep) + b;
    }
  }

  /** `s.lastIndexOf(c)` for a single character. */
  function LastIndexOf(s: string, c: char): (r: int)
    ensures -1 <= r < |s|
    ensures r >= 0 ==> s[r] == c
    ensures forall j :: r < j < |s| ==> s[j] != c
  {
    if |s| == 0 then -1
    else if s[|s| - 1] == c then |s| - 1
    else LastIndexOf(s[..|s| - 1], c)
  }

  /** `p` with its trailing slashes removed. */
  function TrimTrailingSlashes(p: string): (t: string)
  {
    if |p| > 0 && p[|p| - 1] == '/' then TrimTrailingSlashes(p[..|p| - 1]) else p
  }

  /** The last path segment, ignoring trailing slashes. */
  function LastSegment(p: string): (b: string)
    ensures forall i :: 0 <= i < |b| ==> b[i] != '/'
  {
    var t := TrimTrailingSlashes(p);
    var k := LastIndexOf(t, '/');
    SuffixAt(t, k + 1);
    t[k + 1..]
  }

  /** Indexing into a suffix of `s` is indexing into `s`. */
  lemma SuffixAt(s: string, k: nat)
    requires k <= |s|
    ensures forall i :: 0 <= i < |s| - k ==> s[k..][i] == s[k + i]
  {
  }

  /** `path.extname(p)` on POSIX: from the last `.` of the last segment to its
      end; empty when that segment has no dot, when its only dot is its first
      character (`.bashrc`), and for `..`. */
  function ExtName(p: string): (r: string)
    ensures r == "" || r[0] == '.'
    ensures forall i :: 1 <= i < |r| ==> r[i] != '.' && r[i] != '/'
  {
    var b := LastSegment(p);
    var d := LastIndexOf(b, '.');
    if d <= 0 || b == ".." then ""
    else
      SuffixAt(b, d);
      b[d..]
  }

  /** A bare file name (no `/`) is its own last segment. */
  lemma PlainNameIsSegment(p: string)
    requires '/' !in p
    ensures LastSegment(p) == p
  {
    assert TrimTrailingSlashes(p) == p;
    assert LastIndexOf(p, '/') == -1;
  }

  /** For a bare file name: the extension is empty exactly when the name is
      `..` or has no dot after its first character; otherwise it is a proper
      suffix of the name. */
  lemma ExtNameOfPlainName(p: string)
    requires '/' !in p
    ensures ExtName(p) == "" <==> p == ".." || forall i :: 1 <= i < |p| ==> p[i] != '.'
    ensures ExtName(p) != "" ==> |ExtName(p)| < |p| && p[|p| - |ExtName(p)|..] == ExtName(p)
  {
    PlainNameIsSegment(p);
    var d := LastIndexOf(p, '.');
    if d > 0 && p != ".." {
      assert p[d] == '.';
      assert ExtName(p) == p[d..];
    }
  }

  /** A character the regular-expression `.` matches: anything but a line
      terminator. */
  predicate Dot(c: char)
  {
    c != '\n' && c != '\r' && c != '\U{2028}' && c != '\U{2029}'
  }

  /** The alternative `.word` of the pattern matches `s` starting at `i`. */
  predicate AlternativeAt(s: string, i: int, word: string)
  {
    0 <= i && i + 1 + |word| <= |s| && Dot(s[i]) && s[i + 1..i + 1 + |word|] == word
  }

  /** `/.docx|.pdf/` matches `s` starting at `i`. */
  predicate PatternAt(s: string, i: int)
  {
    AlternativeAt(s, i, "docx") || AlternativeAt(s, i, "pdf")
  }

  /** The regular-expression search, trying start positions from `from` on. */
  function SearchFrom(s: string, from: nat): (b: bool)
    requires from <= |s|
    ensures b <==> exists i :: from <= i < |s| && PatternAt(s, i)
    decreases |s| - from
  {
    if from == |s| then false else PatternAt(s, from) || SearchFrom(s, from + 1)
  }

  /** `/.docx|.pdf/.test(s)`: the pattern matches somewhere in `s`. */
  function SupportedFileTest(s: string): (b: bool)
    ensures b <==> exists i :: 0 <= i < |s| && PatternAt(s, i)
  {
    SearchFrom(s, 0)
  }

  /** Because the pattern is unanchored and `.` is a wildcard, an extension
      passes as soon as `pdf` occurs anywhere after its first character,
      preceded by a character other than a line terminator. */
  lemma PdfAnywherePasses(ext: string, i: int)
    requires 1 <= i && i + 3 <= |ext| && ext[i..i + 3] == "pdf" && Dot(ext[i - 1])
    ensures SupportedFileTest(ext)
  {
    assert PatternAt(ext, i - 1);
  }

  /** The test passes as soon as the pattern matches at one position. */
  lemma MatchPasses(s: string, i: int)
    requires 0 <= i < |s| && PatternAt(s, i)
    ensures SupportedFileTest(s)
  {
  }

  /** A dotted suffix after a non-empty stem is the extension: `path.extname`
      of `stem + ext` is `ext` when `ext` is a dot followed by neither dots nor
      slashes. */
  lemma ExtNameOfStem(stem: string, ext: string)
    requires stem != "" && forall i :: 0 <= i < |stem| ==> stem[i] != '/'
    requires |ext| > 0 && ext[0] == '.' && forall i :: 1 <= i < |ext| ==> ext[i] != '.' && ext[i] != '/'
    requires stem == "." ==> |ext| > 1
    ensures ExtName(stem + ext) == ext
  {
    var p := stem + ext;
    assert '/' !in p by {
      forall i | 0 <= i < |p|
        ensures p[i] != '/'
      {
        if i < |stem| { assert p[i] == stem[i]; } else { assert p[i] == ext[i - |stem|]; }
      }
    }
    PlainNameIsSegment(p);
    LastDotOfStem(stem, ext);
    var d := |stem|;
    assert p != ".." by {
      if |p| == 2 {
        assert |stem| == 1 && stem != ".";
        assert stem == [stem[0]] && p[0] == stem[0];
        assert p[0] != '.';
      }
    }
    assert p[d..] == ext;
  }

  /** The last dot of `stem + ext` is the dot that starts `ext`. */
  lemma LastDotOfStem(stem: string, ext: string)
    requires |ext| > 0 && ext[0] == '.' && forall i :: 1 <= i < |ext| ==> ext[i] != '.'
    ensures LastIndexOf(stem + ext, '.') == |stem|
  {
    var p := stem + ext;
    var d := LastIndexOf(p, '.');
    assert p[|stem|] == '.';
    forall j | |stem| < j < |p|
      ensures p[j] != '.'
    {
      assert p[j] == ext[j - |stem|];
    }
  }

  /** The documented whitelist: `.pdf` and `.docx` pass. */
  lemma WhitelistedExtensionsPass()
    ensures SupportedFileTest(".pdf") && SupportedFileTest(".docx")
  {
    assert AlternativeAt(".pdf", 0, "pdf") by { assert ".pdf"[1..4] == "pdf"; }
    MatchPasses(".pdf", 0);
    assert AlternativeAt(".docx", 0, "docx") by { assert ".docx"[1..5] == "docx"; }
    MatchPasses(".docx", 0);
  }

  /** Other extensions fail, including an upper-case `.PDF`. */
  lemma OtherExtensionsFail()
    ensures !SupportedFileTest(".exe") && !SupportedFileTest(".PDF")
  {
    var exe, upper := ".exe", ".PDF";
    assert exe[1..4][0] == 'e' && "pdf"[0] == 'p';
    assert upper[1..4][0] == 'P';
    assert !AlternativeAt(exe, 0, "pdf");
    assert !AlternativeAt(upper, 0, "pdf");
  }

  /** A dot file named `.pdf` has no extension at all, so it fails. */
  lemma DotFileFails()
    ensures ExtName(".pdf") == ""
    ensures !SupportedFileTest(ExtName(".pdf"))
  {
    PlainNameIsSegment(".pdf");
    var s := ".pdf";
    assert s[0] == '.' && s[1] == 'p' && s[2] == 'd' && s[3] == 'f';
    assert LastIndexOf(s, '.') == 0;
  }

  /** The looseness of the pattern: `.xpdf` and `.pdfx` pass. */
  lemma LooseExtensionsPass()
    ensures SupportedFileTest(".xpdf") && SupportedFileTest(".pdfx")
  {
    assert ".xpdf"[2..5] == "pdf";
    PdfAnywherePasses(".xpdf", 2);
    assert AlternativeAt(".pdfx", 0, "pdf") by { assert ".pdfx"[1..4] == "pdf"; }
    MatchPasses(".pdfx", 0);
  }
}
