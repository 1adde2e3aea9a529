/**
 * The colour argument of the framebuffer test program: normalize_string
 * working in place on a NUL-terminated character buffer, parse_color, and
 * the argument checks of its main().
 */
module ColorParse {
  import opened Colors

  const NUL: char := '\0'

  /** A command-line argument as C sees it: every character stands for one
      byte of argv, so a length in characters is a length in bytes. */
  predicate IsBytes(s: string)
  {
    forall i :: 0 <= i < |s| ==> s[i] as int < 256
  }

  /** isspace in the C locale: space, \t, \n, \v, \f, \r. */
  predicate IsSpace(ch: char): (b: bool)
    ensures b <==> ch as int in {32, 9, 10, 11, 12, 13}
  {
    ch == ' ' || '\t' <= ch <= '\r'
  }

  /** tolower in the C locale: only 'A'..'Z' change. */
  function ToLower(ch: char): (r: char)
    ensures ('A' <= ch <= 'Z') ==> 'a' <= r <= 'z'
    ensures !('A' <= ch <= 'Z') ==> r == ch
  {
    if 'A' <= ch <= 'Z' then (ch as int + 32) as char else ch
  }

  /** strlen: the index of the first NUL. */
  function Strlen(b: seq<char>): (n: nat)
    requires NUL in b
    ensures n < |b| && b[n] == NUL
    ensures forall i :: 0 <= i < n ==> b[i] != NUL
  {
    if b[0] == NUL then 0 else 1 + Strlen(b[1..])
  }

  /** The string a NUL-terminated buffer holds. */
  function CString(b: seq<char>): (s: seq<char>)
    requires NUL in b
    ensures NUL !in s && |s| < |b| && b[|s|] == NUL && b == s + b[|s|..]
  {
    b[..Strlen(b)]
  }

  /** Number of leading whitespace characters. */
  function LeadingSpaces(s: seq<char>): (k: nat)
    ensures k <= |s|
    ensures forall i :: 0 <= i < k ==> IsSpace(s[i])
    ensures k < |s| ==> !IsSpace(s[k])
  {
    if s != [] && IsSpace(s[0]) then 1 + LeadingSpaces(s[1..]) else 0
  }

  /** The string without its trailing whitespace. */
  function TrimEnd(s: seq<char>): (r: seq<char>)
    ensures |r| <= |s| && r == s[..|r|]
    ensures r == [] || !IsSpace(r[|r| - 1])
    ensures forall i :: |r| <= i < |s| ==> IsSpace(s[i])
  {
    if s != [] && IsSpace(s[|s| - 1]) then TrimEnd(s[..|s| - 1]) else s
  }

  function Lower(s: seq<char>): (r: seq<char>)
    ensures |r| == |s| && forall i :: 0 <= i < |s| ==> r[i] == ToLower(s[i])
  {
    if s == [] then [] else [ToLower(s[0])] + Lower(s[1..])
  }

  /** The name with whitespace at both ends removed, in lower case: what
      the comments of normalize_string describe. */
  function Canonical(s: seq<char>): (r: seq<char>)
    ensures |r| <= |s|
  {
    Lower(TrimEnd(s[LeadingSpaces(s)..]))
  }

  /** What normalize_string leaves in the caller's buffer: the leading
      whitespace is skipped only by the function's own pointer, so it stays
      in front of the trimmed, lower-cased rest. */
  function Normalized(s: seq<char>): (r: seq<char>)
    ensures |r| <= |s|
  {
    s[..LeadingSpaces(s)] + Canonical(s)
  }

  function ColorName(c: Color): string
  {
    match c
    case Red => "red"
    case Green => "green"
    case Blue => "blue"
    case Magenta => "magenta"
    case Cyan => "cyan"
    case Yellow => "yellow"
    case Black => "black"
    case White => "white"
  }

  /** The strcmp chain of parse_color, with black as the fallback. */
  function Lookup(name: string): (c: Color)
    ensures forall k :: name == ColorName(k) ==> c == k
    ensures c != Black ==> name == ColorName(c)
  {
    if name == "red" then Red
    else if name == "green" then Green
    else if name == "blue" then Blue
    else if name == "magenta" then Magenta
    else if name == "cyan" then Cyan
    else if name == "yellow" then Yellow
    else if name == "black" then Black
    else if name == "white" then White
    else Black
  }

  /** In the NUL-terminated buffer b, k is the end of the leading whitespace
      and t follows the last non-space character after it. */
  ghost predicate TrimmedAt(b: seq<char>, k: nat, t: nat)
    requires NUL in b
  {
    && k <= t <= Strlen(b)
    && (forall i :: 0 <= i < k ==> IsSpace(b[i]))
    && (k < Strlen(b) ==> !IsSpace(b[k]))
    && (t == k || !IsSpace(b[t - 1]))
    && (forall i :: t <= i < Strlen(b) ==> IsSpace(b[i]))
  }

  /** b1 is b0 after normalize_string's writes: the terminator at t and the
      characters from k up to t lower-cased. */
  ghost predicate RewrittenAt(b0: seq<char>, b1: seq<char>, k: nat, t: nat)
  {
    && k <= t < |b0| == |b1|
    && (forall i :: 0 <= i < |b1| ==> b1[i] == if k <= i < t then ToLower(b0[i]) else if i == t then NUL else b0[i])
  }

  /** The first three loops of normalize_string: the start index after the
      leading whitespace, and the index one past the last non-space
      character, where the terminator goes. They only read the buffer. */
  method TrimBounds(buf: array<char>) returns (k: nat, t: nat)
    requires NUL in buf[..]
    ensures TrimmedAt(buf[..], k, t)
  {
    ghost var n := Strlen(buf[..]);
    // Trim leading whitespace: only the local start index moves.
    k := 0;
    while IsSpace(buf[k])
      invariant 0 <= k <= n
      invariant forall i :: 0 <= i < k ==> IsSpace(buf[i])
      decreases n - k
    {
      k := k + 1;
    }
    // end is the index of the last character before the NUL.
    var len := 0;
    while buf[k + len] != NUL
      invariant 0 <= len <= n - k
      decreases n - k - len
    {
      len := len + 1;
    }
    var end: int := k + len - 1;
    // Trim trailing whitespace.
    while end > k && IsSpace(buf[end])
      invariant k - 1 <= end <= n - 1
      invariant forall i :: end < i < n ==> IsSpace(buf[i])
    {
      end := end - 1;
    }
    t := end + 1;
  }

  /** normalize_string, in place. Only the string's own characters and its
      terminator can change; the characters after the old terminator stay. */
  method NormalizeString(buf: array<char>)
    requires NUL in buf[..]
    modifies buf
    ensures NUL in buf[..]
    ensures CString(buf[..]) == Normalized(CString(old(buf[..])))
    ensures forall i :: |CString(old(buf[..]))| < i < buf.Length ==> buf[i] == old(buf[i])
    ensures forall i :: |CString(buf[..])| < i < buf.Length ==> buf[i] == old(buf[i])
  {
    ghost var b0 := buf[..];
    var k, t := TrimBounds(buf);
    buf[t] := NUL;
    ghost var bm := buf[..];
    LowerInPlace(buf, k, t);
    assert RewrittenAt(b0, buf[..], k, t) by {
      assert forall i :: 0 <= i < buf.Length ==> buf[i] == if k <= i < t then ToLower(bm[i]) else bm[i];
    }
    NormalizedBuffer(b0, buf[..], k, t);
  }

  /** The last loop of normalize_string: lower-case every character from
      `start` up to the terminator at `t`. */
  method LowerInPlace(buf: array<char>, start: nat, t: nat)
    requires start <= t < buf.Length && buf[t] == NUL
    requires forall i :: start <= i < t ==> buf[i] != NUL
    modifies buf
    ensures forall i :: 0 <= i < buf.Length ==> buf[i] == if start <= i < t then ToLower(old(buf[i])) else old(buf[i])
  {
    var p := start;
    while buf[p] != NUL
      invariant start <= p <= t
      invariant forall i :: 0 <= i < buf.Length ==> buf[i] == if start <= i < p then ToLower(old(buf[i])) else old(buf[i])
      decreases t - p
    {
      buf[p] := ToLower(buf[p]);
      p := p + 1;
    }
  }

  /** What the loops of normalize_string establish, in terms of Normalized. */
  lemma NormalizedBuffer(b0: seq<char>, b1: seq<char>, k: nat, t: nat)
    requires NUL in b0 && TrimmedAt(b0, k, t) && RewrittenAt(b0, b1, k, t)
    ensures NUL in b1 && CString(b1) == Normalized(CString(b0))
    ensures forall i :: |CString(b0)| < i < |b1| ==> b1[i] == b0[i]
    ensures forall i :: |CString(b1)| < i < |b1| ==> b1[i] == b0[i]
  {
    var s := CString(b0);
    var n := Strlen(b0);
    assert s == b0[..n];
    NormalizedOf(s, k, t);
    var r := s[..k] + Lower(s[k..t]);
    BufferHolds(s, b1, k, t);
    CStringOf(r, b1[t..]);
  }

  /** The buffer after the loops holds r followed by the terminator. */
  lemma BufferHolds(s: seq<char>, b1: seq<char>, k: nat, t: nat)
    requires k <= t <= |s| && t < |b1| && NUL !in s
    requires forall i :: 0 <= i < k ==> b1[i] == s[i]
    requires forall i :: k <= i < t ==> b1[i] == ToLower(s[i])
    ensures b1 == (s[..k] + Lower(s[k..t])) + b1[t..]
    ensures NUL !in s[..k] + Lower(s[k..t])
  {
    var r := s[..k] + Lower(s[k..t]);
    forall i | 0 <= i < t
      ensures b1[i] == r[i] && r[i] != NUL
    {
      assert s[i] != NUL;
    }
  }

  /** Normalized, read off the two trim positions. */
  lemma NormalizedOf(s: seq<char>, k: nat, t: nat)
    requires k <= t <= |s|
    requires forall i :: 0 <= i < k ==> IsSpace(s[i])
    requires k < |s| ==> !IsSpace(s[k])
    requires t == k || !IsSpace(s[t - 1])
    requires forall i :: t <= i < |s| ==> IsSpace(s[i])
    ensures Normalized(s) == s[..k] + Lower(s[k..t])
  {
    LeadingSpacesUnique(s, k);
    TrimEndUnique(s[k..], t - k);
    assert s[k..][..t - k] == s[k..t];
  }

  /** parse_color for an argument that fits the 32-byte copy: strncpy copies
      it and pads with NUL, normalize_string runs on the copy, and the copy
      is compared against the eight names. */
  method ParseColor(colorStr: string) returns (color: Color)
    requires |colorStr| < 31 && NUL !in colorStr && IsBytes(colorStr)
    ensures color == Lookup(Normalized(colorStr))
  {
    var copy := new char[32](_ => NUL);
    forall i | 0 <= i < |colorStr| {
      copy[i] := colorStr[i];
    }
    assert copy[..] == colorStr + copy[|colorStr|..];
    CStringOf(colorStr, copy[|colorStr|..]);
    NormalizeString(copy);
    color := Lookup(CString(copy[..]));
  }

  /** How main() ends for its arguments: x and y are the values atoi gave. */
  datatype Outcome = Usage | OutOfRange | UnknownColor | SetPixel(x: nat, y: nat, color: Color)

  /** The checks of main() in their order: argument count, range of x and
      y, then an unknown colour, recognised by parse_color returning black
      for an argument that is not literally "black". */
  function Command(argc: int, x: int, y: int, colorArg: string): (o: Outcome)
    ensures o == Usage <==> argc != 4
    ensures o == OutOfRange <==> argc == 4 && !(0 <= x <= 7 && 0 <= y <= 7)
    ensures o == UnknownColor <==>
      argc == 4 && 0 <= x <= 7 && 0 <= y <= 7 && Lookup(Normalized(colorArg)) == Black && colorArg != "black"
    ensures o.SetPixel? ==> o.x == x && o.y == y && o.color == Lookup(Normalized(colorArg))
  {
    if argc != 4 then Usage
    else if x < 0 || x > 7 || y < 0 || y > 7 then OutOfRange
    else
      var color := Lookup(Normalized(colorArg));
      if color == Black && colorArg != "black" then UnknownColor
      else SetPixel(x, y, color)
  }

  /** main() up to the key loop: the checks, then fb->pixel[y][x] = color. */
  method SetPixelCommand(fb: array2<bv16>, argc: int, x: int, y: int, colorArg: string) returns (o: Outcome)
    requires fb.Length0 == 8 && fb.Length1 == 8
    requires argc == 4 && 0 <= x <= 7 && 0 <= y <= 7 ==> |colorArg| < 31 && NUL !in colorArg && IsBytes(colorArg)
    modifies fb
    ensures o == Command(argc, x, y, colorArg)
    ensures o.SetPixel? ==> fb[o.y, o.x] == Rgb565(o.color)
    ensures forall i, j :: 0 <= i < 8 && 0 <= j < 8 && !(o.SetPixel? && i == o.y && j == o.x) ==> fb[i, j] == old(fb[i, j])
  {
    if argc != 4 {
      return Usage;
    }
    if x < 0 || x > 7 || y < 0 || y > 7 {
      return OutOfRange;
    }
    var color := ParseColor(colorArg);
    if color == Black && colorArg != "black" {
      return UnknownColor;
    }
    fb[y, x] := Rgb565(color);
    return SetPixel(x, y, color);
  }

  // ---- Helper facts about the string functions ----

  lemma {:induction false} LeadingSpacesUnique(s: seq<char>, k: nat)
    requires k <= |s| && (forall i :: 0 <= i < k ==> IsSpace(s[i])) && (k < |s| ==> !IsSpace(s[k]))
    ensures LeadingSpaces(s) == k
  {
    if k > 0 {
      LeadingSpacesUnique(s[1..], k - 1);
    }
  }

  lemma TrimEndUnique(s: seq<char>, j: nat)
    requires j <= |s| && (j == 0 || !IsSpace(s[j - 1])) && forall i :: j <= i < |s| ==> IsSpace(s[i])
    ensures TrimEnd(s) == s[..j]
  {
  }

  lemma StrlenUnique(b: seq<char>, n: nat)
    requires n < |b| && b[n] == NUL && forall i :: 0 <= i < n ==> b[i] != NUL
    ensures NUL in b && Strlen(b) == n
  {
  }

  lemma CStringOf(s: seq<char>, rest: seq<char>)
    requires NUL !in s && rest != [] && rest[0] == NUL
    ensures NUL in s + rest && CString(s + rest) == s
  {
    StrlenUnique(s + rest, |s|);
  }

  lemma IsSpaceLower(ch: char)
    ensures IsSpace(ToLower(ch)) <==> IsSpace(ch)
    ensures IsSpace(ch) ==> ToLower(ch) == ch
  {
  }

  lemma LeadingSpacesLower(s: seq<char>)
    ensures LeadingSpaces(Lower(s)) == LeadingSpaces(s)
    ensures Lower(s)[..LeadingSpaces(s)] == s[..LeadingSpaces(s)]
  {
    var k := LeadingSpaces(s);
    var l := Lower(s);
    forall i | 0 <= i < |s|
      ensures IsSpace(l[i]) <==> IsSpace(s[i])
    {
      IsSpaceLower(s[i]);
    }
    LeadingSpacesUnique(l, k);
    forall i | 0 <= i < k
      ensures l[i] == s[i]
    {
      IsSpaceLower(s[i]);
    }
  }

  lemma TrimEndLower(s: seq<char>)
    ensures TrimEnd(Lower(s)) == Lower(TrimEnd(s))
  {
    var l := Lower(s);
    var r := TrimEnd(s);
    forall i | 0 <= i < |s|
      ensures IsSpace(l[i]) <==> IsSpace(s[i])
    {
      IsSpaceLower(s[i]);
    }
    TrimEndUnique(l, |r|);
    assert l[..|r|] == Lower(r);
  }

  lemma LowerSuffix(s: seq<char>, k: nat)
    requires k <= |s|
    ensures Lower(s)[k..] == Lower(s[k..])
  {
  }

  /** Canonical can lower first and trim afterwards. */
  lemma CanonicalOfLower(s: seq<char>)
    ensures Canonical(s) == TrimEnd(Lower(s)[LeadingSpaces(s)..])
  {
    var k := LeadingSpaces(s);
    LowerSuffix(s, k);
    TrimEndLower(s[k..]);
  }

  /** Whitespace in front does not change Canonical. */
  lemma CanonicalDropsLeading(pre: seq<char>, u: seq<char>)
    requires forall i :: 0 <= i < |pre| ==> IsSpace(pre[i])
    ensures Canonical(pre + u) == Canonical(u)
  {
    var k := LeadingSpaces(u);
    LeadingSpacesUnique(pre + u, |pre| + k);
    assert (pre + u)[|pre| + k..] == u[k..];
  }

  /** Whitespace at the end does not change Canonical. */
  lemma CanonicalDropsTrailing(u: seq<char>, post: seq<char>)
    requires forall i :: 0 <= i < |post| ==> IsSpace(post[i])
    ensures Canonical(u + post) == Canonical(u)
  {
    var v := u + post;
    var k := LeadingSpaces(u);
    if k == |u| {
      LeadingSpacesUnique(v, |v|);
      assert TrimEnd(u[k..]) == [];
      assert TrimEnd(v[|v|..]) == [];
    } else {
      LeadingSpacesUnique(v, k);
      assert v[k..] == u[k..] + post;
      var r := TrimEnd(u[k..]);
      TrimEndUnique(u[k..] + post, |r|);
      assert (u[k..] + post)[..|r|] == r;
    }
  }

  /** Whitespace before and after does not change Canonical. */
  lemma CanonicalTrimsEnds(pre: seq<char>, s: seq<char>, post: seq<char>)
    requires forall i :: 0 <= i < |pre| ==> IsSpace(pre[i])
    requires forall i :: 0 <= i < |post| ==> IsSpace(post[i])
    ensures Canonical(pre + s + post) == Canonical(s)
  {
    assert pre + s + post == pre + (s + post);
    CanonicalDropsLeading(pre, s + post);
    CanonicalDropsTrailing(s, post);
  }

  // ---- Properties of parse_color as written ----

  /** A colour name is non-empty lower-case letters. */
  lemma NameLetters(c: Color)
    ensures |ColorName(c)| > 0 && forall i :: 0 <= i < |ColorName(c)| ==> 'a' <= ColorName(c)[i] <= 'z'
  {
  }

  /** A colour name is its own canonical and normalised form. */
  lemma NameIsCanonical(c: Color)
    ensures Canonical(ColorName(c)) == ColorName(c) && Normalized(ColorName(c)) == ColorName(c)
  {
    var n := ColorName(c);
    NameLetters(c);
    assert LeadingSpaces(n) == 0 by { LeadingSpacesUnique(n, 0); }
    assert n[0..] == n;
    TrimEndUnique(n, |n|);
    assert Lower(n) == n;
  }

  /** Each of the eight names is recognised as its colour. */
  lemma NamesRoundTrip(c: Color)
    ensures Lookup(Normalized(ColorName(c))) == c
  {
    NameIsCanonical(c);
  }

  /** Letter case does not change Canonical. */
  lemma CanonicalCase(a: seq<char>, b: seq<char>)
    requires Lower(a) == Lower(b)
    ensures Canonical(a) == Canonical(b)
  {
    LeadingSpacesLower(a);
    LeadingSpacesLower(b);
    CanonicalOfLower(a);
    CanonicalOfLower(b);
  }

  /** Two arguments that differ only in letter case normalise alike. */
  lemma CaseInsensitive(a: seq<char>, b: seq<char>)
    requires Lower(a) == Lower(b)
    ensures Normalized(a) == Normalized(b)
  {
    LeadingSpacesLower(a);
    LeadingSpacesLower(b);
    CanonicalCase(a, b);
  }

  /** Trailing whitespace after a name does not change what it normalises to. */
  lemma TrailingSpaceIgnored(s: seq<char>, sp: seq<char>)
    requires exists i :: 0 <= i < |s| && !IsSpace(s[i])
    requires forall i :: 0 <= i < |sp| ==> IsSpace(sp[i])
    ensures Normalized(s + sp) == Normalized(s)
  {
    var k := LeadingSpaces(s);
    LeadingSpacesUnique(s + sp, k);
    assert (s + sp)[..k] == s[..k];
    CanonicalDropsTrailing(s, sp);
  }

  /** An argument that starts with whitespace is never recognised: the
      buffer still begins with that whitespace when it is compared. */
  lemma LeadingSpaceUnrecognised(s: seq<char>)
    requires |s| > 0 && IsSpace(s[0])
    ensures Lookup(Normalized(s)) == Black
  {
    assert Normalized(s)[0] == s[0];
  }

  /** " red" is parsed as black. */
  lemma LeadingSpaceRed()
    ensures Lookup(Normalized(" red")) == Black
  {
    LeadingSpaceUnrecognised(" red");
  }

  /** "Black" is parsed as black, and then main() reports it as an unknown colour. */
  lemma CapitalBlackRejected()
    ensures Lookup(Normalized("Black")) == Black
    ensures Command(4, 0, 0, "Black") == UnknownColor
  {
    assert LeadingSpaces("Black") == 0;
    assert "Black"[0..] == "Black";
    assert TrimEnd("Black") == "Black";
  }

  // ---- The behaviour the comments describe ----

  /** Whitespace at both ends and letter case do not matter to Canonical. */
  lemma CanonicalIgnoresSpacesAndCase(pre: seq<char>, s: seq<char>, post: seq<char>, t: seq<char>)
    requires forall i :: 0 <= i < |pre| ==> IsSpace(pre[i])
    requires forall i :: 0 <= i < |post| ==> IsSpace(post[i])
    requires Lower(s) == Lower(t)
    ensures Canonical(pre + s + post) == Canonical(t)
  {
    CanonicalTrimsEnds(pre, s, post);
    CanonicalCase(s, t);
  }

  /** parse_color with both ends trimmed. */
  function ParseColorTrimmed(s: seq<char>): (c: Color)
    ensures forall k :: Canonical(s) == ColorName(k) ==> c == k
    ensures c != Black ==> Canonical(s) == ColorName(c)
  {
    Lookup(Canonical(s))
  }

  /** main()'s checks with the black test made against the normalised name. */
  function CommandIntended(argc: int, x: int, y: int, colorArg: string): (o: Outcome)
    ensures o == Usage <==> argc != 4
    ensures o == OutOfRange <==> argc == 4 && !(0 <= x <= 7 && 0 <= y <= 7)
    ensures argc == 4 && 0 <= x <= 7 && 0 <= y <= 7 ==>
      (o == UnknownColor <==> forall k :: Canonical(colorArg) != ColorName(k))
    ensures o.SetPixel? ==> Canonical(colorArg) == ColorName(o.color)
  {
    if argc != 4 then Usage
    else if x < 0 || x > 7 || y < 0 || y > 7 then OutOfRange
    else
      var color := ParseColorTrimmed(colorArg);
      if color == Black && Canonical(colorArg) != "black" then UnknownColor
      else
        assert Canonical(colorArg) == ColorName(color);
        SetPixel(x, y, color)
  }

  /** Every spelling of a colour name, in any case and with whitespace at
      either end, sets the pixel to that colour. */
  lemma IntendedAcceptsEverySpelling(pre: seq<char>, post: seq<char>, t: seq<char>, c: Color, x: int, y: int)
    requires forall i :: 0 <= i < |pre| ==> IsSpace(pre[i])
    requires forall i :: 0 <= i < |post| ==> IsSpace(post[i])
    requires Lower(t) == ColorName(c)
    requires 0 <= x <= 7 && 0 <= y <= 7
    ensures CommandIntended(4, x, y, pre + t + post) == SetPixel(x, y, c)
  {
    var n := ColorName(c);
    NameIsCanonical(c);
    assert Lower(n) == n;
    CanonicalIgnoresSpacesAndCase(pre, t, post, n);
  }
}
