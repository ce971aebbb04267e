/** The parts of JavaScript's string and Node's path API that the services
    rely on: `String.prototype.trim`, `startsWith`, `endsWith`, `split` on
    one character, `Array.prototype.join`, UTF-16 `length`, and
    `path.basename` / `path.extname`. */
module JsStrings {

  /** The characters `String.prototype.trim` removes: ECMAScript's WhiteSpace
      (tab, vertical tab, form feed, space, no-break space, the byte order
      mark and the Unicode "Zs" space separators) and LineTerminator (line
      feed, carriage return, line separator, paragraph separator). */
  predicate IsWhitespace(c: char) {
    || c == '\t' || c == '\n' || c == '\U{B}' || c == '\U{C}' || c == '\r'
    || c == ' ' || c == '\U{A0}' || c == '\U{1680}'
    || ('\U{2000}' <= c <= '\U{200A}')
    || c == '\U{2028}' || c == '\U{2029}' || c == '\U{202F}' || c == '\U{205F}'
    || c == '\U{3000}' || c == '\U{FEFF}'
  }

  predicate AllWhitespace(s: string) {
    forall i :: 0 <= i < |s| ==> IsWhitespace(s[i])
  }

  /** Neither starts nor ends with whitespace. */
  predicate IsTrimmed(s: string) {
    |s| == 0 || (!IsWhitespace(s[0]) && !IsWhitespace(s[|s| - 1]))
  }

  /** Number of whitespace characters at the start of `s`. */
  function LeadingWhitespace(s: string): (n: nat)
    ensures n <= |s|
  {
    if |s| > 0 && IsWhitespace(s[0]) then 1 + LeadingWhitespace(s[1..]) else 0
  }

  /** The leading count covers whitespace only and stops at the first
      other character. */
  lemma {:induction false} LeadingWhitespaceSpec(s: string)
    ensures AllWhitespace(s[..LeadingWhitespace(s)])
    ensures LeadingWhitespace(s) < |s| ==> !IsWhitespace(s[LeadingWhitespace(s)])
  {
    if |s| > 0 && IsWhitespace(s[0]) {
      var n := LeadingWhitespace(s);
      LeadingWhitespaceSpec(s[1..]);
      assert s[..n] == [s[0]] + s[1..][..n - 1];
      AllWhitespaceAppend([s[0]], s[1..][..n - 1]);
    }
  }

  /** Number of whitespace characters at the end of `s`. */
  function TrailingWhitespace(s: string): (n: nat)
    ensures n <= |s|
  {
    if |s| > 0 && IsWhitespace(s[|s| - 1]) then 1 + TrailingWhitespace(s[..|s| - 1]) else 0
  }

  /** The trailing count covers whitespace only and stops at the last
      other character. */
  lemma {:induction false} TrailingWhitespaceSpec(s: string)
    ensures AllWhitespace(s[|s| - TrailingWhitespace(s)..])
    ensures TrailingWhitespace(s) < |s| ==> !IsWhitespace(s[|s| - TrailingWhitespace(s) - 1])
  {
    if |s| > 0 && IsWhitespace(s[|s| - 1]) {
      var init := s[..|s| - 1];
      var n := TrailingWhitespace(s);
      TrailingWhitespaceSpec(init);
      assert s[|s| - n..] == init[|init| - (n - 1)..] + [s[|s| - 1]];
      AllWhitespaceAppend(init[|init| - (n - 1)..], [s[|s| - 1]]);
      assert n < |s| ==> s[|s| - n - 1] == init[|init| - (n - 1) - 1];
    }
  }

  /** `s.trim()`: `s` without its leading and trailing whitespace. */
  function Trim(s: string): (r: string)
    ensures IsTrimmed(r)
    ensures |r| <= |s|
  {
    var k := LeadingWhitespace(s);
    var a := s[k..];
    var m := TrailingWhitespace(a);
    LeadingWhitespaceSpec(s);
    TrailingWhitespaceSpec(a);
    var r := a[..|a| - m];
    assert |r| > 0 ==> r[0] == s[k] && r[|r| - 1] == a[|a| - m - 1];
    r
  }

  /** The trim is the middle of a split of `s` into whitespace, a trimmed
      string and whitespace (TrimUnique shows that split is the only one). */
  lemma TrimDecompose(s: string)
    ensures
      var k := LeadingWhitespace(s);
      var r := Trim(s);
      && k + |r| <= |s|
      && s == s[..k] + r + s[k + |r|..]
      && AllWhitespace(s[..k]) && AllWhitespace(s[k + |r|..])
  {
    var k := LeadingWhitespace(s);
    var m := TrailingWhitespace(s[k..]);
    TrimByCounts(s, k, m);
    CountsDecompose(s, k, m);
  }

  /** The leading count `k` and the trailing count `m` of what follows it
      cut `s` into whitespace, a middle part and whitespace. */
  lemma CountsDecompose(s: string, k: nat, m: nat)
    requires k == LeadingWhitespace(s) && m == TrailingWhitespace(s[k..])
    ensures k + m <= |s|
    ensures s == s[..k] + s[k..][..|s| - k - m] + s[|s| - m..]
    ensures AllWhitespace(s[..k]) && AllWhitespace(s[|s| - m..])
  {
    LeadingWhitespaceSpec(s);
    TrailingWhitespaceSpec(s[k..]);
    Reassemble(s, k, |s| - k - m);
  }

  /** `s` cut at `k` and, after that, `j` characters further on. */
  lemma Reassemble(s: string, k: nat, j: nat)
    requires k + j <= |s|
    ensures s[k + j..] == s[k..][j..]
    ensures s == s[..k] + s[k..][..j] + s[k + j..]
  {
    var a := s[k..];
    assert s == s[..k] + a;
    assert a == a[..j] + a[j..];
    assert s[..k] + (a[..j] + a[j..]) == s[..k] + a[..j] + a[j..];
  }

  /** Leading whitespace in front of more text adds to that text's count. */
  lemma {:induction false} LeadingWhitespaceAppend(pre: string, x: string)
    requires AllWhitespace(pre)
    ensures LeadingWhitespace(pre + x) == |pre| + LeadingWhitespace(x)
  {
    if |pre| > 0 {
      assert (pre + x)[0] == pre[0];
      assert (pre + x)[1..] == pre[1..] + x;
      LeadingWhitespaceAppend(pre[1..], x);
    } else {
      assert pre + x == x;
    }
  }

  /** Trailing whitespace behind more text adds to that text's count. */
  lemma {:induction false} TrailingWhitespaceAppend(x: string, post: string)
    requires AllWhitespace(post)
    ensures TrailingWhitespace(x + post) == TrailingWhitespace(x) + |post|
  {
    if |post| > 0 {
      var s := x + post;
      assert s[|s| - 1] == post[|post| - 1];
      assert s[..|s| - 1] == x + post[..|post| - 1];
      TrailingWhitespaceAppend(x, post[..|post| - 1]);
    } else {
      assert x + post == x;
    }
  }

  /** The trim of `s`, in terms of its leading count `k` and the trailing
      count `m` of what follows it. */
  lemma TrimByCounts(s: string, k: nat, m: nat)
    requires k == LeadingWhitespace(s) && m == TrailingWhitespace(s[k..])
    ensures Trim(s) == s[k..][..|s| - k - m]
  {
    var a := s[k..];
    assert |a| == |s| - k;
    assert Trim(s) == a[..|a| - m];
  }

  /** An all-whitespace string trims to the empty string. */
  lemma TrimAllWhitespace(s: string)
    requires AllWhitespace(s)
    ensures Trim(s) == []
  {
    LeadingWhitespaceAppend(s, []);
    assert s + [] == s;
    TrimByCounts(s, |s|, TrailingWhitespace(s[|s|..]));
  }

  /** Trimming removes exactly the outer whitespace: whatever whitespace
      surrounds a trimmed string, trimming gives that string back. */
  lemma TrimUnique(pre: string, mid: string, post: string)
    requires AllWhitespace(pre) && AllWhitespace(post) && IsTrimmed(mid)
    ensures Trim(pre + mid + post) == mid
  {
    var s := pre + mid + post;
    if |mid| == 0 {
      assert s == pre + post;
      AllWhitespaceAppend(pre, post);
      TrimAllWhitespace(s);
    } else {
      var rest := mid + post;
      assert s == pre + rest;
      LeadingWhitespaceAppend(pre, rest);
      assert LeadingWhitespace(rest) == 0 by { assert rest[0] == mid[0]; }
      TrailingWhitespaceAppend(mid, post);
      assert TrailingWhitespace(mid) == 0;
      assert s[|pre|..] == rest;
      TrimByCounts(s, |pre|, |post|);
      assert rest[..|mid|] == mid;
    }
  }

  lemma TrimIdempotent(s: string)
    ensures Trim(Trim(s)) == Trim(s)
  {
    TrimUnique([], Trim(s), []);
    assert [] + Trim(s) + [] == Trim(s);
  }

  /** A trimmed string is its own trim. */
  lemma TrimOfTrimmed(s: string)
    requires IsTrimmed(s)
    ensures Trim(s) == s
  {
    TrimUnique([], s, []);
    assert [] + s + [] == s;
  }

  lemma AllWhitespaceAppend(a: string, b: string)
    requires AllWhitespace(a) && AllWhitespace(b)
    ensures AllWhitespace(a + b)
  {
    forall i | 0 <= i < |a + b| ensures IsWhitespace((a + b)[i]) {
      if i < |a| { assert (a + b)[i] == a[i]; } else { assert (a + b)[i] == b[i - |a|]; }
    }
  }

  /** `s.trim()` is empty, so falsy, exactly when `s` is all whitespace. */
  lemma TrimEmptyIff(s: string)
    ensures Trim(s) == [] <==> AllWhitespace(s)
  {
    if AllWhitespace(s) {
      TrimUnique(s, [], []);
      assert s + [] + [] == s;
    }
    if Trim(s) == [] {
      var k := LeadingWhitespace(s);
      TrimDecompose(s);
      AllWhitespaceAppend(s[..k], s[k..]);
      assert s[..k] + s[k..] == s;
    }
  }

  /** Length of `s` counted as JavaScript does, in UTF-16 code units: a
      character beyond the Basic Multilingual Plane is a surrogate pair. */
  function Utf16Length(s: string): (n: nat)
    ensures |s| <= n <= 2 * |s|
  {
    if |s| == 0 then 0
    else (if s[0] as int > 0xFFFF then 2 else 1) + Utf16Length(s[1..])
  }

  /** Text without characters beyond the Basic Multilingual Plane is as long
      in code units as in characters, and only such text is. */
  lemma {:induction false} Utf16LengthBmp(s: string)
    ensures Utf16Length(s) == |s| <==> forall i :: 0 <= i < |s| ==> s[i] as int <= 0xFFFF
  {
    if |s| > 0 {
      Utf16LengthBmp(s[1..]);
      assert forall i :: 0 < i < |s| ==> s[1..][i - 1] == s[i];
    }
  }

  predicate StartsWith(s: string, prefix: string) {
    |prefix| <= |s| && s[..|prefix|] == prefix
  }

  predicate EndsWith(s: string, suffix: string) {
    |suffix| <= |s| && s[|s| - |suffix|..] == suffix
  }

  /** `s.split(sep)` for a one-character separator: the pieces between
      separators, including empty ones; `"".split(sep)` is `[""]`. */
  function Split(s: string, sep: char): (parts: seq<string>)
    ensures |parts| >= 1
    ensures forall i :: 0 <= i < |parts| ==> sep !in parts[i]
  {
    if |s| == 0 then [""]
    else
      var rest := Split(s[1..], sep);
      if s[0] == sep then [""] + rest
      else [[s[0]] + rest[0]] + rest[1..]
  }

  /** `parts.join(sep)`; `[].join(sep)` is `""`. */
  function Join(parts: seq<string>, sep: char): string {
    if |parts| == 0 then ""
    else if |parts| == 1 then parts[0]
    else parts[0] + [sep] + Join(parts[1..], sep)
  }

  /** Joining the pieces of a split gives the string back. */
  lemma {:induction false} JoinSplit(s: string, sep: char)
    ensures Join(Split(s, sep), sep) == s
  {
    if |s| > 0 {
      var rest := Split(s[1..], sep);
      JoinSplit(s[1..], sep);
      if s[0] == sep {
        assert Split(s, sep) == [""] + rest;
        assert ([""] + rest)[1..] == rest;
      } else {
        var parts := Split(s, sep);
        assert parts == [[s[0]] + rest[0]] + rest[1..];
        if |rest| == 1 {
          assert parts == [[s[0]] + rest[0]];
        } else {
          assert parts[1..] == rest[1..];
          assert Join(rest, sep) == rest[0] + [sep] + Join(rest[1..], sep);
        }
        assert s == [s[0]] + s[1..];
      }
    }
  }

  /** A piece without the separator stays whole at the front of a split. */
  lemma {:induction false} SplitPrefix(w: string, t: string, sep: char)
    requires sep !in w
    ensures var rest := Split(t, sep);
      Split(w + t, sep) == [w + rest[0]] + rest[1..]
  {
    if |w| > 0 {
      SplitPrefix(w[1..], t, sep);
      assert (w + t)[1..] == w[1..] + t;
      assert (w + t)[0] == w[0];
      assert [w[0]] + (w[1..] + Split(t, sep)[0]) == w + Split(t, sep)[0];
    } else {
      var rest := Split(t, sep);
      assert w + t == t;
      assert w + rest[0] == rest[0];
      assert rest == [rest[0]] + rest[1..];
    }
  }

  /** Splitting a join of separator-free pieces gives the pieces back. */
  lemma {:induction false} SplitJoin(parts: seq<string>, sep: char)
    requires |parts| >= 1
    requires forall i :: 0 <= i < |parts| ==> sep !in parts[i]
    ensures Split(Join(parts, sep), sep) == parts
  {
    if |parts| == 1 {
      SplitPrefix(parts[0], "", sep);
      assert parts[0] + "" == parts[0];
    } else {
      var tail := Join(parts[1..], sep);
      SplitJoin(parts[1..], sep);
      assert Split([sep] + tail, sep) == [""] + parts[1..] by {
        assert ([sep] + tail)[1..] == tail;
      }
      SplitPrefix(parts[0], [sep] + tail, sep);
      assert parts[0] + [sep] + tail == parts[0] + ([sep] + tail);
      var rest := Split([sep] + tail, sep);
      assert ([""] + parts[1..])[1..] == parts[1..];
      assert rest[0] == "" && rest[1..] == parts[1..];
      assert parts[0] + "" == parts[0];
      assert parts == [parts[0] + rest[0]] + rest[1..];
    }
  }

  /** Index of the last occurrence of `c` in `s`, or -1 (`lastIndexOf`). */
  function LastIndexOf(s: string, c: char): (i: int)
    ensures -1 <= i < |s|
    ensures i >= 0 ==> s[i] == c
    ensures forall k :: i < k < |s| ==> s[k] != c
  {
    if |s| == 0 then -1
    else if s[|s| - 1] == c then |s| - 1
    else LastIndexOf(s[..|s| - 1], c)
  }

  /** `path.basename(p)` for a POSIX path that does not end in `/`: the
      whole last component, that is, the suffix of `p` that follows the last
      `/` (all of `p` when there is none). */
  function BaseName(p: string): (b: string)
    ensures '/' !in b
    ensures EndsWith(p, b)
    ensures |b| == |p| || p[|p| - |b| - 1] == '/'
  {
    p[LastIndexOf(p, '/') + 1..]
  }

  /** `path.extname(b)` of a base name: from the last `.` to the end; `""`
      when no `.` follows the first character (".bashrc" has none), and for
      "..". */
  function ExtName(b: string): (e: string)
    ensures |e| <= |b|
    ensures e != [] ==> |e| < |b| && EndsWith(b, e) && e[0] == '.' && '.' !in e[1..]
  {
    var i := LastIndexOf(b, '.');
    if i <= 0 || b == ".." then ""
    else
      assert forall k :: 0 <= k < |b[i..][1..]| ==> b[i..][1..][k] == b[i + 1 + k];
      b[i..]
  }

  /** A base name has an extension exactly when a `.` follows its first
      character, except for "..". */
  lemma ExtNameEmptyIff(b: string)
    ensures ExtName(b) == [] <==> b == ".." || forall k :: 0 < k < |b| ==> b[k] != '.'
  {
  }

  /** `path.basename(p, path.extname(p))`: the file name without directory
      and without extension. */
  function Stem(p: string): string {
    var b := BaseName(p);
    b[..|b| - |ExtName(b)|]
  }

  /** The last component of a path is its stem followed by its extension. */
  lemma StemSplitsPath(p: string)
    ensures BaseName(p) == Stem(p) + ExtName(BaseName(p))
  {
    var b := BaseName(p);
    var x := ExtName(b);
    SplitOffSuffix(b, x);
    assert Stem(p) == b[..|b| - |x|];
  }

  /** A suffix, cut off, leaves what comes before it. */
  lemma SplitOffSuffix(s: string, x: string)
    requires EndsWith(s, x)
    ensures s == s[..|s| - |x|] + x
  {
    assert s == s[..|s| - |x|] + s[|s| - |x|..];
  }

  /** The stem never holds a `/`. */
  lemma StemHasNoSlash(p: string)
    ensures '/' !in Stem(p)
  {
  }

  /** A name with an extension keeps a non-empty stem. */
  lemma StemNonEmpty(p: string)
    ensures ExtName(BaseName(p)) != [] ==> |Stem(p)| > 0
  {
  }

  /** A concrete path: only the last extension is cut off the name. */
  lemma StemExample()
    ensures Stem("uploads/report.v2.pdf") == "report.v2"
  {
    var p, b := "uploads/report.v2.pdf", "report.v2.pdf";
    assert p[8..] == b;
    LastIndexOfAt(p, '/', 7);
    assert BaseName(p) == b;
    assert b[10..] == "pdf";
    LastIndexOfAt(b, '.', 9);
    assert ExtName(b) == b[9..];
    assert b[..9] == "report.v2";
  }

  /** A name whose only `.` leads it has no extension: it is its own stem. */
  lemma StemOfDotName()
    ensures Stem("uploads/.pdf") == ".pdf"
  {
    var p, b := "uploads/.pdf", ".pdf";
    assert p[8..] == b;
    LastIndexOfAt(p, '/', 7);
    assert BaseName(p) == b;
    assert b[1..] == "pdf";
    LastIndexOfAt(b, '.', 0);
    assert ExtName(b) == [];
  }

  /** An occurrence with none after it is the last one. */
  lemma LastIndexOfAt(s: string, c: char, i: nat)
    requires i < |s| && s[i] == c && c !in s[i + 1..]
    ensures LastIndexOf(s, c) == i
  {
  }
}
