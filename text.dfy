/** Python string operations that the program relies on, over strings as
    sequences of Unicode code points: str.isspace, str.lower, str.strip,
    str.split, str.find, str.rfind, str.startswith/endswith and `in`. */
module Text {

  /** Python's str.isspace() on one code point; the regular-expression class
      \s matches the same characters on str patterns. */
  predicate IsSpace(c: char) {
    || ('\U{09}' <= c <= '\U{0D}')
    || ('\U{1C}' <= c <= '\U{20}')
    || c == '\U{85}' || c == '\U{A0}' || c == '\U{1680}'
    || ('\U{2000}' <= c <= '\U{200A}')
    || c == '\U{2028}' || c == '\U{2029}' || c == '\U{202F}' || c == '\U{205F}' || c == '\U{3000}'
  }

  predicate IsUpper(c: char) {
    || ('A' <= c <= 'Z')
    || ('\U{C0}' <= c <= '\U{DE}' && c != '\U{D7}')
    || ('\U{400}' <= c <= '\U{42F}')
  }

  /** str.lower() on one code point, for Basic Latin, Latin-1 and Cyrillic
      capitals (U+0400-U+042F); every other code point is left as it is. */
  function LowerChar(c: char): (r: char)
    ensures IsSpace(r) <==> IsSpace(c)
    ensures !IsUpper(r)
    ensures !IsUpper(c) ==> r == c
  {
    if 'A' <= c <= 'Z' then (c as int + 32) as char
    else if '\U{C0}' <= c <= '\U{DE}' && c != '\U{D7}' then (c as int + 32) as char
    else if '\U{410}' <= c <= '\U{42F}' then (c as int + 32) as char
    else if '\U{400}' <= c <= '\U{40F}' then (c as int + 80) as char
    else c
  }

  /** str.lower(). */
  function Lower(s: string): (r: string)
    ensures |r| == |s|
    ensures forall i :: 0 <= i < |s| ==> r[i] == LowerChar(s[i])
  {
    seq(|s|, i requires 0 <= i < |s| => LowerChar(s[i]))
  }

  predicate IsLower(s: string) {
    forall i :: 0 <= i < |s| ==> !IsUpper(s[i])
  }

  /** Lower-casing twice is lower-casing once. */
  lemma LowerIdempotent(s: string)
    ensures IsLower(Lower(s))
    ensures Lower(Lower(s)) == Lower(s)
  {
  }

  /** A lower-case string is its own lower-case form. */
  lemma LowerOfLower(s: string)
    requires IsLower(s)
    ensures Lower(s) == s
  {
  }

  /** The number of leading whitespace characters. */
  function LeadingSpaces(s: string): (n: nat)
    ensures n <= |s| && (n == |s| || !IsSpace(s[n]))
    ensures forall k :: 0 <= k < n ==> IsSpace(s[k])
  {
    if s != [] && IsSpace(s[0]) then
      var n := LeadingSpaces(s[1..]);
      assert forall k :: 1 <= k < n + 1 ==> s[k] == s[1..][k - 1];
      1 + n
    else 0
  }

  /** The length left once the trailing whitespace is removed. */
  function TrailingEnd(s: string): (n: nat)
    ensures n <= |s| && (n == 0 || !IsSpace(s[n - 1]))
    ensures forall k :: n <= k < |s| ==> IsSpace(s[k])
  {
    if s != [] && IsSpace(s[|s| - 1]) then TrailingEnd(s[..|s| - 1]) else |s|
  }

  function LStrip(s: string): (r: string)
    ensures |r| <= |s| && r == s[|s| - |r|..]
    ensures r == [] || !IsSpace(r[0])
    ensures forall k :: 0 <= k < |s| - |r| ==> IsSpace(s[k])
  {
    s[LeadingSpaces(s)..]
  }

  function RStrip(s: string): (r: string)
    ensures |r| <= |s| && r == s[..|r|]
    ensures r == [] || !IsSpace(r[|r| - 1])
    ensures forall k :: |r| <= k < |s| ==> IsSpace(s[k])
  {
    s[..TrailingEnd(s)]
  }

  /** str.strip(): the string without its leading and trailing whitespace. */
  function Strip(s: string): string {
    RStrip(LStrip(s))
  }

  predicate Trimmed(s: string) {
    s == [] || (!IsSpace(s[0]) && !IsSpace(s[|s| - 1]))
  }

  /** strip() removes exactly the whitespace at both ends: what is left is
      the part of the input between the first and the last non-whitespace
      character, and everything cut off is whitespace. */
  lemma {:induction false} StripSpec(s: string)
    ensures Trimmed(Strip(s))
    ensures var i := |s| - |LStrip(s)|;
            && i + |Strip(s)| <= |s|
            && Strip(s) == s[i..i + |Strip(s)|]
            && (forall k :: 0 <= k < i ==> IsSpace(s[k]))
            && (forall k :: i + |Strip(s)| <= k < |s| ==> IsSpace(s[k]))
  {
    StripFacts(s, LStrip(s), Strip(s));
  }

  /** The facts StripSpec combines, over the two intermediate strings. */
  lemma StripFacts(s: string, l: string, r: string)
    requires |l| <= |s| && l == s[|s| - |l|..] && (l == [] || !IsSpace(l[0]))
    requires |r| <= |l| && r == l[..|r|] && (r == [] || !IsSpace(r[|r| - 1]))
    requires forall k :: |r| <= k < |l| ==> IsSpace(l[k])
    ensures Trimmed(r)
    ensures var i := |s| - |l|;
            && r == s[i..i + |r|]
            && (forall k :: i + |r| <= k < |s| ==> IsSpace(s[k]))
  {
    var i := |s| - |l|;
    assert r != [] ==> r[0] == l[0];
    forall k | i + |r| <= k < |s| ensures IsSpace(s[k]) {
      assert s[k] == l[k - i];
    }
  }

  /** strip() leaves a string with no whitespace at its ends unchanged. */
  lemma StripTrimmed(s: string)
    requires Trimmed(s)
    ensures Strip(s) == s
  {
  }

  predicate HasNoSpace(s: string) {
    forall k :: 0 <= k < |s| ==> !IsSpace(s[k])
  }

  /** Number of leading non-whitespace characters. */
  function RunLength(s: string): (n: nat)
    ensures n <= |s|
    ensures HasNoSpace(s[..n])
    ensures n == |s| || IsSpace(s[n])
  {
    if s == [] || IsSpace(s[0]) then 0 else 1 + RunLength(s[1..])
  }

  /** str.split() with no separator: the whitespace-separated words. */
  function Split(s: string): seq<string>
    decreases |s|
  {
    if s == [] then []
    else if IsSpace(s[0]) then Split(s[1..])
    else
      var n := RunLength(s);
      [s[..n]] + Split(s[n..])
  }

  /** s[i..j] is a maximal run of non-whitespace characters in s. */
  predicate IsRun(s: string, i: int, j: int) {
    && 0 <= i < j <= |s|
    && (forall k :: i <= k < j ==> !IsSpace(s[k]))
    && (i == 0 || IsSpace(s[i - 1]))
    && (j == |s| || IsSpace(s[j]))
  }

  /** A maximal run in a suffix of s is a maximal run of s, shifted. */
  lemma RunInSuffix(s: string, n: nat, i: int, j: int)
    requires n <= |s| && IsRun(s[n..], i, j)
    requires n == 0 || i > 0 || IsSpace(s[n - 1])
    ensures IsRun(s, n + i, n + j) && s[n..][i..j] == s[n + i..n + j]
  {
    forall k | n + i <= k < n + j ensures !IsSpace(s[k]) {
      assert s[k] == s[n..][k - n];
    }
    if i > 0 {
      assert s[n + i - 1] == s[n..][i - 1];
    }
    if n + j < |s| {
      assert s[n + j] == s[n..][j];
    }
  }

  /** A maximal run of s that starts at or after n is a maximal run of s[n..]. */
  lemma RunOfSuffix(s: string, n: nat, i: int, j: int)
    requires n <= i && IsRun(s, i, j)
    requires n == i ==> n == 0 || IsSpace(s[n - 1])
    ensures IsRun(s[n..], i - n, j - n) && s[n..][i - n..j - n] == s[i..j]
  {
    forall k | i - n <= k < j - n ensures !IsSpace(s[n..][k]) {
      assert s[n..][k] == s[k + n];
    }
  }

  /** Every word split() returns is a maximal run of non-whitespace. */
  lemma {:induction false} SplitSound(s: string, t: string)
    requires t in Split(s)
    ensures exists i, j :: IsRun(s, i, j) && t == s[i..j]
    decreases |s|
  {
    if IsSpace(s[0]) {
      SplitSound(s[1..], t);
      var i, j :| IsRun(s[1..], i, j) && t == s[1..][i..j];
      RunInSuffix(s, 1, i, j);
    } else {
      var n := RunLength(s);
      var rest := s[n..];
      assert Split(s) == [s[..n]] + Split(rest);
      if t == s[..n] {
        assert IsRun(s, 0, n);
        assert t == s[0..n];
      } else {
        assert t in Split(rest);
        SplitSound(rest, t);
        var i, j :| IsRun(rest, i, j) && t == rest[i..j];
        assert i > 0 by {
          if i == 0 { assert n == |s| || IsSpace(rest[0]); }
        }
        RunInSuffix(s, n, i, j);
      }
    }
  }

  /** The maximal run at the start of s is the leading non-whitespace. */
  lemma FirstRunLength(s: string, j: int)
    requires IsRun(s, 0, j)
    ensures j == RunLength(s) && s[0..j] == s[..RunLength(s)]
  {
    var n := RunLength(s);
    assert forall k :: 0 <= k < n ==> s[k] == s[..n][k];
  }

  /** A later maximal run starts after the leading non-whitespace. */
  lemma LaterRunStart(s: string, i: int, j: int)
    requires IsRun(s, i, j) && i > 0
    ensures RunLength(s) < i
  {
    var n := RunLength(s);
    assert forall k :: 0 <= k < n ==> s[k] == s[..n][k];
  }

  /** Every maximal run of non-whitespace is a word that split() returns. */
  lemma {:induction false} SplitComplete(s: string, i: int, j: int)
    requires IsRun(s, i, j)
    ensures s[i..j] in Split(s)
    decreases |s|, 1
  {
    if IsSpace(s[0]) {
      SplitCompleteAfterSpace(s, i, j);
    } else if i == 0 {
      FirstRunLength(s, j);
      SplitHead(s);
    } else {
      SplitCompleteAfterWord(s, i, j);
    }
  }

  /** The case of SplitComplete where s starts with whitespace. */
  lemma {:induction false} SplitCompleteAfterSpace(s: string, i: int, j: int)
    requires IsRun(s, i, j) && IsSpace(s[0])
    ensures s[i..j] in Split(s)
    decreases |s|, 0
  {
    RunOfSuffix(s, 1, i, j);
    SplitComplete(s[1..], i - 1, j - 1);
    SplitSkipsSpace(s, s[i..j]);
  }

  /** The case of SplitComplete where the run is not the leading word. */
  lemma {:induction false} SplitCompleteAfterWord(s: string, i: int, j: int)
    requires IsRun(s, i, j) && !IsSpace(s[0]) && i > 0
    ensures s[i..j] in Split(s)
    decreases |s|, 0
  {
    var n := RunLength(s);
    LaterRunStart(s, i, j);
    RunOfSuffix(s, n, i, j);
    SplitComplete(s[n..], i - n, j - n);
    SplitRest(s, n, s[i..j]);
  }

  /** split() passes over a leading whitespace character. */
  lemma SplitSkipsSpace(s: string, t: string)
    requires s != [] && IsSpace(s[0]) && t in Split(s[1..])
    ensures t in Split(s)
  {
  }

  /** split() on a string that starts with a word returns that word first. */
  lemma SplitHead(s: string)
    requires s != [] && !IsSpace(s[0])
    ensures s[..RunLength(s)] in Split(s)
  {
    assert Split(s) == [s[..RunLength(s)]] + Split(s[RunLength(s)..]);
  }

  /** ... and then the words of what follows that word. */
  lemma SplitRest(s: string, n: nat, t: string)
    requires s != [] && !IsSpace(s[0]) && n == RunLength(s)
    requires t in Split(s[n..])
    ensures t in Split(s)
  {
    assert Split(s) == [s[..n]] + Split(s[n..]);
  }

  /** The words of split() are exactly the maximal runs of non-whitespace. */
  lemma SplitWords(s: string, t: string)
    ensures t in Split(s) <==> exists i, j :: IsRun(s, i, j) && t == s[i..j]
  {
    if t in Split(s) {
      SplitSound(s, t);
    }
    if exists i, j :: IsRun(s, i, j) && t == s[i..j] {
      var i, j :| IsRun(s, i, j) && t == s[i..j];
      SplitComplete(s, i, j);
    }
  }

  /** Every word of split() is non-empty and free of whitespace. */
  lemma {:induction false} SplitWellFormed(s: string)
    ensures forall t :: t in Split(s) ==> t != [] && HasNoSpace(t)
    decreases |s|
  {
    if s != [] {
      if IsSpace(s[0]) {
        SplitWellFormed(s[1..]);
      } else {
        SplitWellFormed(s[RunLength(s)..]);
      }
    }
  }

  /** ' '.join(ts). */
  function JoinSpace(ts: seq<string>): string
  {
    if ts == [] then ""
    else if |ts| == 1 then ts[0]
    else ts[0] + " " + JoinSpace(ts[1..])
  }

  lemma RunLengthOfPrefix(a: string, b: string)
    requires HasNoSpace(a)
    requires b == [] || IsSpace(b[0])
    ensures RunLength(a + b) == |a|
    decreases |a|
  {
    if a != [] {
      assert (a + b)[1..] == a[1..] + b;
      RunLengthOfPrefix(a[1..], b);
    }
  }

  lemma SplitOfWord(a: string, b: string)
    requires a != [] && HasNoSpace(a)
    requires b == [] || IsSpace(b[0])
    ensures Split(a + b) == [a] + Split(b)
  {
    RunLengthOfPrefix(a, b);
    assert (a + b)[..|a|] == a;
    assert (a + b)[|a|..] == b;
  }

  /** Splitting the space-joined words gives back the words, as long as each
      is a non-empty run of non-whitespace: ' '.join(s.split()).split() is
      s.split(). */
  lemma {:induction false} SplitJoinSpace(ts: seq<string>)
    requires forall t :: t in ts ==> t != [] && HasNoSpace(t)
    ensures Split(JoinSpace(ts)) == ts
  {
    if ts == [] {
    } else if |ts| == 1 {
      assert ts[0] in ts;
      SplitOfWord(ts[0], "");
      assert ts[0] + "" == ts[0];
    } else {
      assert ts[0] in ts;
      assert forall t :: t in ts[1..] ==> t in ts;
      var rest := JoinSpace(ts[1..]);
      assert ts[0] + " " + rest == ts[0] + (" " + rest);
      SplitOfWord(ts[0], " " + rest);
      assert (" " + rest)[1..] == rest;
      SplitJoinSpace(ts[1..]);
    }
  }

  /** str.find(c) for one character: the first index of c, or -1. */
  function Find(s: string, c: char): (r: int)
    ensures -1 <= r < |s|
    ensures r >= 0 ==> s[r] == c
    ensures forall k :: 0 <= k < |s| && (r < 0 || k < r) ==> s[k] != c
  {
    if s == [] then -1
    else if s[0] == c then 0
    else var r := Find(s[1..], c); if r < 0 then -1 else r + 1
  }

  /** str.rfind(c) for one character: the last index of c, or -1. */
  function RFind(s: string, c: char): (r: int)
    ensures -1 <= r < |s|
    ensures r >= 0 ==> s[r] == c
    ensures forall k :: 0 <= k < |s| && r < k ==> s[k] != c
  {
    if s == [] then -1
    else if s[|s| - 1] == c then |s| - 1
    else RFind(s[..|s| - 1], c)
  }

  predicate StartsWith(s: string, p: string) {
    |p| <= |s| && s[..|p|] == p
  }

  predicate EndsWith(s: string, p: string) {
    |p| <= |s| && s[|s| - |p|..] == p
  }

  /** Python's `sub in s`. */
  predicate Contains(s: string, sub: string)
    decreases |s|
  {
    StartsWith(s, sub) || (s != [] && Contains(s[1..], sub))
  }

  /** str.split(sep) for a one-character separator. */
  function SplitOn(s: string, sep: char): (r: seq<string>)
    ensures |r| >= 1
    decreases |s|
  {
    var i := Find(s, sep);
    if i < 0 then [s] else [s[..i]] + SplitOn(s[i + 1..], sep)
  }

  /** sep.join(ts) for a one-character separator. */
  function JoinOn(ts: seq<string>, sep: char): string
    requires |ts| >= 1
  {
    if |ts| == 1 then ts[0] else ts[0] + [sep] + JoinOn(ts[1..], sep)
  }

  /** split(sep) cuts s into pieces free of sep that join back to s. */
  lemma {:induction false} SplitOnJoin(s: string, sep: char)
    ensures JoinOn(SplitOn(s, sep), sep) == s
    ensures forall t :: t in SplitOn(s, sep) ==> sep !in t
    decreases |s|
  {
    var i := Find(s, sep);
    if i >= 0 {
      SplitOnJoin(s[i + 1..], sep);
      assert s == s[..i] + [sep] + s[i + 1..];
      assert forall k :: 0 <= k < i ==> s[..i][k] == s[k];
    }
  }

  predicate AllDots(s: string) {
    forall k :: 0 <= k < |s| ==> s[k] == '.'
  }

  /** os.path.splitext on a POSIX path: the extension runs from the last '.'
      of the last path component, provided some character other than '.'
      comes before that '.' in the component; otherwise it is empty. */
  function SplitExt(p: string): (r: (string, string))
    ensures r.0 + r.1 == p
  {
    var sep := RFind(p, '/');
    var dot := RFind(p, '.');
    if dot > sep && !AllDots(p[sep + 1..dot]) then (p[..dot], p[dot..]) else (p, [])
  }

  /** The extension splitext cuts off is empty, or a '.' followed by no
      other '.' and no '/', and then the rest of the last component holds
      a character other than '.'. */
  lemma SplitExtSpec(p: string)
    ensures var (root, ext) := SplitExt(p);
      && (ext != [] ==> ext[0] == '.')
      && (forall k :: 1 <= k < |ext| ==> ext[k] != '.' && ext[k] != '/')
      && (ext != [] ==> RFind(p, '/') < |root| && !AllDots(root[RFind(p, '/') + 1..]))
  {
    var sep := RFind(p, '/');
    var dot := RFind(p, '.');
    if dot > sep && !AllDots(p[sep + 1..dot]) {
      var ext := p[dot..];
      forall k | 1 <= k < |ext| ensures ext[k] != '.' && ext[k] != '/' {
        assert ext[k] == p[dot + k];
      }
      assert p[..dot][sep + 1..] == p[sep + 1..dot];
    }
  }

  /** A name with a stem that is not all dots and one dotted extension free
      of '.' and '/' splits into exactly that stem and extension. */
  lemma SplitExtOfName(stem: string, ext: string)
    requires '.' !in ext && '/' !in ext && '/' !in stem && !AllDots(stem)
    ensures SplitExt(stem + "." + ext) == (stem, "." + ext)
  {
    var p := stem + "." + ext;
    assert p[|stem|] == '.';
    assert forall k :: |stem| < k < |p| ==> p[k] == ext[k - |stem| - 1] && p[k] != '.';
    assert forall k :: 0 <= k < |p| ==> p[k] != '/' by {
      forall k | 0 <= k < |p| ensures p[k] != '/' {
        if k < |stem| { assert p[k] == stem[k]; }
        else if k > |stem| { assert p[k] in ext; }
      }
    }
    assert RFind(p, '/') == -1;
    assert RFind(p, '.') == |stem|;
    assert p[0..|stem|] == stem && p[..|stem|] == stem && p[|stem|..] == "." + ext;
  }

  /** A component with no '.' after its last '/' has no extension. */
  lemma SplitExtWithoutDot(p: string)
    requires forall k :: RFind(p, '/') < k < |p| ==> p[k] != '.'
    ensures SplitExt(p) == (p, [])
  {
  }
}
