/**
  FileScanner: reads a road graph in the text format of the earlier route planner.
  Blank lines and lines whose first non-blank character is '#' are skipped; the first two
  remaining lines hold the node and the edge count; then come the node lines
  (`id osmId latitude longitude elevation`) and the edge lines
  (`source target cost type maxSpeed`). Numbers are scanned by hand: an integer is a run
  of digits, a float a run of digits optionally followed by '.' and another run. A line
  with a missing required field or trailing text is rejected, as is a node id outside
  the node range or seen twice and an edge endpoint outside the node range; the result
  is an array holding node `i` at index `i`, each with its outgoing edges in input order.

  The file is a `LineReader` over its lines (the lines `BufferedReader.readLine` returns).
  A thrown exception is a `None` result. `Double.parseDouble` is the parameter `toDouble`
  for the value; which float texts it rejects (those without a digit) is modelled.
*/
module FileScanner {
  import opened JavaTypes
  import opened Decimal
  import opened GraphNode
  import Graphs

  /** Java's `Character.isWhitespace`: the Unicode space, line and paragraph separators
      other than the non-breaking spaces, and the controls U+0009..U+000D, U+001C..U+001F. */
  predicate IsWhitespace(c: char) {
    || c == ' ' || '\U{0009}' <= c <= '\U{000D}' || '\U{001C}' <= c <= '\U{001F}'
    || c == '\U{1680}' || ('\U{2000}' <= c <= '\U{200A}' && c != '\U{2007}')
    || c == '\U{2028}' || c == '\U{2029}' || c == '\U{205F}' || c == '\U{3000}'
  }

  // ---------------------------------------------------------------------------------
  // The scans

  /** Where `skipWhitespace(s, k)` stops: the first index from `k` on that is the end of
      `s` or holds a non-blank character. */
  function WhitespaceEnd(s: string, k: nat): (r: nat)
    decreases |s| - k
    ensures k <= r && (k <= |s| ==> r <= |s|)
  {
    if k < |s| && IsWhitespace(s[k]) then WhitespaceEnd(s, k + 1) else k
  }

  /** `skipWhitespace` skips blanks only, and all of them. */
  lemma {:induction false} WhitespaceEndSpec(s: string, k: nat)
    ensures forall j :: k <= j < WhitespaceEnd(s, k) ==> j < |s| && IsWhitespace(s[j])
    ensures WhitespaceEnd(s, k) < |s| ==> !IsWhitespace(s[WhitespaceEnd(s, k)])
    decreases |s| - k
  {
    if k < |s| && IsWhitespace(s[k]) {
      assert WhitespaceEnd(s, k) == WhitespaceEnd(s, k + 1);
      WhitespaceEndSpec(s, k + 1);
    } else {
      assert WhitespaceEnd(s, k) == k;
    }
  }

  /** Where `skipInteger(s, k)` stops: the end of the run of digits from `k`. */
  function IntegerEnd(s: string, k: nat): (r: nat)
    decreases |s| - k
    ensures k <= r && (k <= |s| ==> r <= |s|)
  {
    if k < |s| && IsDigit(s[k]) then IntegerEnd(s, k + 1) else k
  }

  /** `skipInteger` skips digits only, and all of them. */
  lemma {:induction false} IntegerEndSpec(s: string, k: nat)
    ensures forall j :: k <= j < IntegerEnd(s, k) ==> j < |s| && IsDigit(s[j])
    ensures IntegerEnd(s, k) < |s| ==> !IsDigit(s[IntegerEnd(s, k)])
    decreases |s| - k
  {
    if k < |s| && IsDigit(s[k]) {
      assert IntegerEnd(s, k) == IntegerEnd(s, k + 1);
      IntegerEndSpec(s, k + 1);
    } else {
      assert IntegerEnd(s, k) == k;
    }
  }

  /** What `skipInteger` skips is a run of digits. */
  lemma IntegerEndDigits(s: string, k: nat)
    requires k <= |s|
    ensures AllDigits(s[k..IntegerEnd(s, k)])
  {
    IntegerEndSpec(s, k);
  }

  /** The texts `skipFloat` accepts: digits, optionally followed by '.' and digits (no
      sign, no exponent; either run may be empty). */
  predicate FloatText(t: string) {
    || AllDigits(t)
    || exists p :: 0 <= p < |t| && t[p] == '.' && AllDigits(t[..p]) && AllDigits(t[p + 1..])
  }

  /** Where `skipFloat(s, k)` stops. */
  function FloatEnd(s: string, k: nat): (r: nat)
    ensures k <= r && (k <= |s| ==> r <= |s|)
  {
    var i := IntegerEnd(s, k);
    if i < |s| && s[i] == '.' then IntegerEnd(s, i + 1) else i
  }

  /** What `skipFloat` skips is a float text. */
  lemma FloatEndText(s: string, k: nat)
    requires k <= |s|
    ensures FloatText(s[k..FloatEnd(s, k)])
  {
    var i := IntegerEnd(s, k);
    var t := s[k..FloatEnd(s, k)];
    IntegerEndDigits(s, k);
    if i < |s| && s[i] == '.' {
      IntegerEndDigits(s, i + 1);
      assert t[i - k] == '.' && t[..i - k] == s[k..i] && t[i - k + 1..] == s[i + 1..FloatEnd(s, k)];
    } else {
      assert t == s[k..i];
    }
  }

  /** A run of blanks that ends at the end of `s` or before a non-blank is what
      `skipWhitespace` skips. */
  lemma WhitespaceEndAt(s: string, k: nat, e: nat)
    requires k <= e <= |s| && (forall j :: k <= j < e ==> IsWhitespace(s[j]))
    requires e == |s| || !IsWhitespace(s[e])
    ensures WhitespaceEnd(s, k) == e
  {
    WhitespaceEndSpec(s, k);
  }

  /** A run of digits that ends at the end of `s` or before a non-digit is what
      `skipInteger` skips. */
  lemma IntegerEndAt(s: string, k: nat, e: nat)
    requires k <= e <= |s| && AllDigits(s[k..e])
    requires e == |s| || !IsDigit(s[e])
    ensures IntegerEnd(s, k) == e
  {
    IntegerEndSpec(s, k);
    forall j | k <= j < e
      ensures IsDigit(s[j])
    {
      assert s[k..e][j - k] == s[j];
    }
  }

  /** A float text that ends at the end of `s` or before a character that can neither
      continue it nor start its fraction is what `skipFloat` skips. */
  lemma FloatEndAt(s: string, k: nat, e: nat)
    requires k <= e <= |s| && FloatText(s[k..e])
    requires e == |s| || (!IsDigit(s[e]) && s[e] != '.')
    ensures FloatEnd(s, k) == e
  {
    var t := s[k..e];
    if AllDigits(t) {
      IntegerEndAt(s, k, e);
    } else {
      var p :| 0 <= p < |t| && t[p] == '.' && AllDigits(t[..p]) && AllDigits(t[p + 1..]);
      FractionEndAt(s, k, e, p);
    }
  }

  lemma FractionEndAt(s: string, k: nat, e: nat, p: nat)
    requires k + p < e <= |s| && s[k + p] == '.'
    requires AllDigits(s[k..e][..p]) && AllDigits(s[k..e][p + 1..])
    requires e == |s| || !IsDigit(s[e])
    ensures FloatEnd(s, k) == e
  {
    assert s[k..k + p] == s[k..e][..p];
    IntegerEndAt(s, k, k + p);
    assert s[k + p + 1..e] == s[k..e][p + 1..];
    IntegerEndAt(s, k + p + 1, e);
  }

  /** Every character of `s` is a blank. */
  predicate Blanks(s: string) {
    forall i :: 0 <= i < |s| ==> IsWhitespace(s[i])
  }

  /** A run of digits at index `k` is skipped as a whole when what follows it is not a
      digit. */
  lemma DigitsFrom(s: string, k: nat, d: string, r: string)
    requires k <= |s| && s[k..] == d + r && AllDigits(d) && (|r| == 0 || !IsDigit(r[0]))
    ensures IntegerEnd(s, k) == k + |d| && s[k..k + |d|] == d && s[k + |d|..] == r
  {
    assert s[k..k + |d|] == s[k..][..|d|] == d;
    assert s[k + |d|..] == s[k..][|d|..] == r;
    if |r| > 0 {
      assert s[k + |d|] == r[0];
    }
    IntegerEndAt(s, k, k + |d|);
  }

  /** A run of blanks at index `k` is skipped as a whole when what follows it is not a
      blank. */
  lemma BlanksFrom(s: string, k: nat, w: string, r: string)
    requires k <= |s| && s[k..] == w + r && Blanks(w) && (|r| == 0 || !IsWhitespace(r[0]))
    ensures WhitespaceEnd(s, k) == k + |w| && s[k + |w|..] == r
  {
    forall j | k <= j < k + |w| ensures IsWhitespace(s[j]) {
      assert s[j] == s[k..][j - k] == w[j - k];
    }
    assert s[k + |w|..] == s[k..][|w|..] == r;
    if |r| > 0 {
      assert s[k + |w|] == r[0];
    }
    WhitespaceEndAt(s, k, k + |w|);
  }

  /** A float text at index `k` is skipped as a whole when what follows it can neither
      continue it nor start its fraction. */
  lemma FloatFrom(s: string, k: nat, f: string, r: string)
    requires k <= |s| && s[k..] == f + r && FloatText(f) && (|r| == 0 || (!IsDigit(r[0]) && r[0] != '.'))
    ensures FloatEnd(s, k) == k + |f| && s[k..k + |f|] == f && s[k + |f|..] == r
  {
    assert s[k..k + |f|] == s[k..][..|f|] == f;
    assert s[k + |f|..] == s[k..][|f|..] == r;
    if |r| > 0 {
      assert s[k + |f|] == r[0];
    }
    FloatEndAt(s, k, k + |f|);
  }

  /** A float text starts with a digit or with its point. */
  lemma FloatStart(f: string)
    requires FloatText(f) && |f| > 0
    ensures IsDigit(f[0]) || f[0] == '.'
  {
    if !AllDigits(f) {
      var p :| 0 <= p < |f| && f[p] == '.' && AllDigits(f[..p]) && AllDigits(f[p + 1..]);
      if p > 0 {
        assert f[..p][0] == f[0];
      }
    }
  }

  method SkipWhitespace(str: string, startIndex: nat) returns (i: nat)
    ensures i == WhitespaceEnd(str, startIndex)
  {
    i := startIndex;
    while i < |str| && IsWhitespace(str[i])
      invariant startIndex <= i && WhitespaceEnd(str, i) == WhitespaceEnd(str, startIndex)
      decreases |str| - i
    {
      i := i + 1;
    }
  }

  method SkipInteger(str: string, startIndex: nat) returns (i: nat)
    ensures i == IntegerEnd(str, startIndex)
  {
    i := startIndex;
    while i < |str| && IsDigit(str[i])
      invariant startIndex <= i && IntegerEnd(str, i) == IntegerEnd(str, startIndex)
      decreases |str| - i
    {
      i := i + 1;
    }
  }

  method SkipFloat(str: string, startIndex: nat) returns (i: nat)
    ensures i == FloatEnd(str, startIndex)
  {
    i := SkipInteger(str, startIndex);
    if i < |str| && str[i] == '.' {
      i := SkipInteger(str, i + 1);
    }
  }

  // ---------------------------------------------------------------------------------
  // Numbers

  /** `Integer.parseUnsignedInt` on a run of digits: fails on the empty run and on values
      of 2^32 and more; otherwise the `int` with that 32-bit pattern (values from 2^31 on
      come out negative). */
  function ParseUnsignedInt(t: string): (r: Option<Int32>)
    requires AllDigits(t)
    ensures r.Some? <==> 0 < |t| && ValueOf(t) < 0x1_0000_0000
    ensures r.Some? ==> r.value % 0x1_0000_0000 == ValueOf(t)
  {
    if |t| == 0 || ValueOf(t) >= 0x1_0000_0000 then None
    else if ValueOf(t) >= 0x8000_0000 then Some(ValueOf(t) - 0x1_0000_0000)
    else Some(ValueOf(t))
  }

  /** The digits of an `int` that is not negative read back as it. */
  lemma ParseUnsignedDigits(n: nat)
    requires n < 0x8000_0000
    ensures ParseUnsignedInt(Digits(n)) == Some(n)
  {
    ValueOfDigits(n);
  }

  predicate HasDigit(t: string) {
    exists i :: 0 <= i < |t| && IsDigit(t[i])
  }

  /** `Double.parseDouble` on a float text: it throws when there is no digit. */
  function ParseDouble(toDouble: string -> real, t: string): Option<real> {
    if HasDigit(t) then Some(toDouble(t)) else None
  }

  // ---------------------------------------------------------------------------------
  // Lines

  /** A line that `getNextRelevantLine` stops at: not blank, and not a comment. */
  predicate Relevant(line: string) {
    var i := WhitespaceEnd(line, 0);
    i < |line| && line[i] != '#'
  }

  /** The index of the first relevant line from line `n` on, or the number of lines. */
  function NextRelevant(lines: seq<string>, n: nat): (m: nat)
    requires n <= |lines|
    decreases |lines| - n
    ensures n <= m <= |lines|
    ensures m < |lines| ==> Relevant(lines[m])
  {
    if n < |lines| && !Relevant(lines[n]) then NextRelevant(lines, n + 1) else n
  }

  /** `getNextRelevantLine` skips irrelevant lines only. */
  lemma {:induction false} NextRelevantSkips(lines: seq<string>, n: nat)
    requires n <= |lines|
    ensures forall j :: n <= j < NextRelevant(lines, n) ==> !Relevant(lines[j])
    decreases |lines| - n
  {
    if n < |lines| && !Relevant(lines[n]) {
      NextRelevantSkips(lines, n + 1);
    }
  }

  /** A relevant line, where its text starts, and the index of the line after it. */
  datatype Cursor = Cursor(line: string, index: nat, next: nat)

  /** What `getNextRelevantLine` finds from line `n` on. */
  function NextLine(lines: seq<string>, n: nat): (c: Option<Cursor>)
    requires n <= |lines|
    ensures c.Some? ==> c.value.index < |c.value.line| && n < c.value.next <= |lines|
  {
    var m := NextRelevant(lines, n);
    if m < |lines| then Some(Cursor(lines[m], WhitespaceEnd(lines[m], 0), m + 1)) else None
  }

  /** `getNextRelevantLine` finds nothing exactly when no line from line `n` on is
      relevant, and otherwise the first relevant one. */
  lemma NextLineSpec(lines: seq<string>, n: nat)
    requires n <= |lines|
    ensures NextLine(lines, n).None? <==> forall j :: n <= j < |lines| ==> !Relevant(lines[j])
    ensures NextLine(lines, n).Some? ==>
      var m := NextLine(lines, n).value.next - 1;
      && lines[m] == NextLine(lines, n).value.line && Relevant(lines[m])
      && (forall j :: n <= j < m ==> !Relevant(lines[j]))
      && NextLine(lines, n).value.index == WhitespaceEnd(lines[m], 0)
  {
    NextRelevantSkips(lines, n);
  }

  /** A header line from index `k`: a count (an unsigned integer) and nothing after it
      but blanks. */
  function ParseCount(line: string, k: nat): Option<Int32>
    requires k <= |line|
  {
    var end := IntegerEnd(line, k);
    IntegerEndDigits(line, k);
    var c := ParseUnsignedInt(line[k..end]);
    if c.None? || WhitespaceEnd(line, end) < |line| then None else c
  }

  /** A node as the file describes it. */
  datatype FmiNode = FmiNode(id: Int32, latitude: real, longitude: real)

  /** An edge as the file describes it. */
  datatype FmiEdge = FmiEdge(srcId: Int32, trgId: Int32, cost: real)

  /** A node line from index `k`, as `readNode` scans it: the id, a non-empty integer
      (skipped), the latitude, the longitude, a non-empty float (skipped) and nothing after
      it but blanks. Blanks between the fields are optional. */
  function ParseNode(toDouble: string -> real, line: string, k: nat): Option<FmiNode>
    requires k <= |line|
  {
    var e1 := IntegerEnd(line, k);
    IntegerEndDigits(line, k);
    var id := ParseUnsignedInt(line[k..e1]);
    if id.None? then None else
    var k2 := WhitespaceEnd(line, e1);
    var e2 := IntegerEnd(line, k2);
    if k2 == e2 then None else
    var k3 := WhitespaceEnd(line, e2);
    var e3 := FloatEnd(line, k3);
    var latitude := ParseDouble(toDouble, line[k3..e3]);
    if latitude.None? then None else
    var k4 := WhitespaceEnd(line, e3);
    var e4 := FloatEnd(line, k4);
    var longitude := ParseDouble(toDouble, line[k4..e4]);
    if longitude.None? then None else
    var k5 := WhitespaceEnd(line, e4);
    var e5 := FloatEnd(line, k5);
    if k5 == e5 || WhitespaceEnd(line, e5) < |line| then None
    else Some(FmiNode(id.value, latitude.value, longitude.value))
  }

  /** An edge line from index `k`, as `readEdge` scans it: the source id, the target id,
      the cost, a non-empty integer and a non-empty float (both skipped) and nothing after
      it but blanks. */
  function ParseEdge(toDouble: string -> real, line: string, k: nat): Option<FmiEdge>
    requires k <= |line|
  {
    var e1 := IntegerEnd(line, k);
    IntegerEndDigits(line, k);
    var src := ParseUnsignedInt(line[k..e1]);
    if src.None? then None else
    var k2 := WhitespaceEnd(line, e1);
    var e2 := IntegerEnd(line, k2);
    IntegerEndDigits(line, k2);
    var trg := ParseUnsignedInt(line[k2..e2]);
    if trg.None? then None else
    var k3 := WhitespaceEnd(line, e2);
    var e3 := FloatEnd(line, k3);
    var cost := ParseDouble(toDouble, line[k3..e3]);
    if cost.None? then None else
    var k4 := WhitespaceEnd(line, e3);
    var e4 := IntegerEnd(line, k4);
    if k4 == e4 then None else
    var k5 := WhitespaceEnd(line, e4);
    var e5 := FloatEnd(line, k5);
    if k5 == e5 || WhitespaceEnd(line, e5) < |line| then None
    else Some(FmiEdge(src.value, trg.value, cost.value))
  }

  /** A header line `readHeader` accepts holds one non-empty run of digits and nothing
      after it but blanks. */
  lemma CountLineShape(line: string, k: nat)
    requires k <= |line| && ParseCount(line, k).Some?
    ensures k < IntegerEnd(line, k) && AllDigits(line[k..IntegerEnd(line, k)])
    ensures Blanks(line[IntegerEnd(line, k)..])
  {
    var e := IntegerEnd(line, k);
    IntegerEndDigits(line, k);
    WhitespaceEndSpec(line, e);
    forall j | 0 <= j < |line| - e ensures IsWhitespace(line[e..][j]) {
      assert line[e..][j] == line[e + j];
    }
  }

  /** The digits of a count followed by blanks is a header line with that count; any
      other text after it is rejected. */
  lemma {:induction false} CountLineFormat(n: nat, pad: string, tail: string)
    requires n < 0x8000_0000 && Blanks(pad)
    requires |tail| == 0 || (!IsWhitespace(tail[0]) && !IsDigit(tail[0]))
    ensures ParseCount(Digits(n) + (pad + tail), 0) == if |tail| == 0 then Some(n) else None
  {
    var line := Digits(n) + (pad + tail);
    assert line[0..] == line;
    DigitsFrom(line, 0, Digits(n), pad + tail);
    ParseUnsignedDigits(n);
    BlanksFrom(line, |Digits(n)|, pad, tail);
  }

  /** A text with a digit is not empty. */
  lemma DigitNonEmpty(t: string)
    requires HasDigit(t)
    ensures |t| > 0
  {
  }

  /** Blanks are neither digits nor the decimal point. */
  lemma BlankChar(c: char)
    ensures IsWhitespace(c) ==> !IsDigit(c) && c != '.'
  {
  }

  /** An integer field followed by a gap of blanks: the scan stops at the gap. */
  lemma IntegerThenGap(s: string, k: nat, d: string, g: string, r: string)
    requires k <= |s| && s[k..] == d + (g + r) && AllDigits(d) && Blanks(g) && |g| > 0
    ensures k + |d| <= |s| && IntegerEnd(s, k) == k + |d| && s[k..k + |d|] == d && s[k + |d|..] == g + r
  {
    assert (g + r)[0] == g[0];
    BlankChar(g[0]);
    DigitsFrom(s, k, d, g + r);
  }

  /** A float field followed by a gap of blanks: the scan stops at the gap. */
  lemma FloatThenGap(s: string, k: nat, f: string, g: string, r: string)
    requires k <= |s| && s[k..] == f + (g + r) && FloatText(f) && Blanks(g) && |g| > 0
    ensures k + |f| <= |s| && FloatEnd(s, k) == k + |f| && s[k..k + |f|] == f && s[k + |f|..] == g + r
  {
    assert (g + r)[0] == g[0];
    BlankChar(g[0]);
    FloatFrom(s, k, f, g + r);
  }

  /** A gap of blanks followed by a field: the scan stops at the field. */
  lemma GapThenField(s: string, k: nat, g: string, f: string, r: string)
    requires k <= |s| && s[k..] == g + (f + r) && Blanks(g) && FloatText(f) && |f| > 0
    ensures k + |g| <= |s| && WhitespaceEnd(s, k) == k + |g| && s[k + |g|..] == f + r
  {
    FloatStart(f);
    BlankChar(f[0]);
    assert (f + r)[0] == f[0];
    BlanksFrom(s, k, g, f + r);
  }

  /** The last float field of a line, optional blanks and whatever follows them. */
  lemma {:induction false} LastField(s: string, k: nat, f: string, pad: string, tail: string)
    requires k <= |s| && s[k..] == f + (pad + tail) && FloatText(f) && Blanks(pad)
    requires |tail| == 0 || (!IsWhitespace(tail[0]) && !IsDigit(tail[0]) && tail[0] != '.')
    ensures FloatEnd(s, k) == k + |f| && WhitespaceEnd(s, k + |f|) == k + |f| + |pad|
    ensures |s| == k + |f| + |pad| + |tail|
  {
    if |pad| > 0 {
      assert (pad + tail)[0] == pad[0];
      BlankChar(pad[0]);
    }
    FloatFrom(s, k, f, pad + tail);
    BlanksFrom(s, k + |f|, pad, tail);
  }

  /** A gap of blanks from `k` to `j`, an integer field from `j` to `e` and the gap
      after it. */
  lemma {:induction false} GapInteger(s: string, k: nat, g: string, d: string, g2: string, r: string, j: nat, e: nat)
    requires k <= |s| && s[k..] == g + (d + (g2 + r)) && Blanks(g) && AllDigits(d) && |d| > 0 && Blanks(g2) && |g2| > 0
    requires j == k + |g| && e == j + |d|
    ensures e <= |s| && WhitespaceEnd(s, k) == j && IntegerEnd(s, j) == e && s[j..e] == d && s[e..] == g2 + r
  {
    GapThenField(s, k, g, d, g2 + r);
    IntegerThenGap(s, j, d, g2, r);
  }

  /** A gap of blanks from `k` to `j`, a float field from `j` to `e` and the gap after
      it. */
  lemma {:induction false} GapFloat(s: string, k: nat, g: string, f: string, g2: string, r: string, j: nat, e: nat)
    requires k <= |s| && s[k..] == g + (f + (g2 + r)) && Blanks(g) && FloatText(f) && |f| > 0 && Blanks(g2) && |g2| > 0
    requires j == k + |g| && e == j + |f|
    ensures e <= |s| && WhitespaceEnd(s, k) == j && FloatEnd(s, j) == e && s[j..e] == f && s[e..] == g2 + r
  {
    GapThenField(s, k, g, f, g2 + r);
    FloatThenGap(s, j, f, g2, r);
  }

  /** A gap of blanks from `k` to `j`, the last float field of a line from `j` to `e`,
      optional blanks and whatever follows them. */
  lemma {:induction false} GapLast(s: string, k: nat, g: string, f: string, pad: string, tail: string, j: nat, e: nat)
    requires k <= |s| && s[k..] == g + (f + (pad + tail)) && Blanks(g) && FloatText(f) && |f| > 0 && Blanks(pad)
    requires |tail| == 0 || (!IsWhitespace(tail[0]) && !IsDigit(tail[0]) && tail[0] != '.')
    requires j == k + |g| && e == j + |f|
    ensures WhitespaceEnd(s, k) == j && FloatEnd(s, j) == e && j < e
    ensures WhitespaceEnd(s, e) == e + |pad| && |s| == e + |pad| + |tail|
  {
    GapThenField(s, k, g, f, pad + tail);
    LastField(s, j, f, pad, tail);
  }

  /** `ParseNode` on a line whose field boundaries are known. */
  lemma {:induction false} NodeFields(toDouble: string -> real, line: string, id: nat, lat: string, lon: string,
                   k1: nat, k2: nat, k3: nat, k4: nat, k5: nat, k6: nat, k7: nat, k8: nat, k9: nat)
    requires id < 0x8000_0000 && HasDigit(lat) && HasDigit(lon)
    requires k1 <= |line| && IntegerEnd(line, 0) == k1 && line[0..k1] == Digits(id)
    requires WhitespaceEnd(line, k1) == k2 && IntegerEnd(line, k2) == k3 && k2 < k3
    requires WhitespaceEnd(line, k3) == k4 && FloatEnd(line, k4) == k5 && k5 <= |line| && line[k4..k5] == lat
    requires WhitespaceEnd(line, k5) == k6 && FloatEnd(line, k6) == k7 && k7 <= |line| && line[k6..k7] == lon
    requires WhitespaceEnd(line, k7) == k8 && FloatEnd(line, k8) == k9 && k8 < k9
    ensures ParseNode(toDouble, line, 0)
         == if WhitespaceEnd(line, k9) < |line| then None else Some(FmiNode(id, toDouble(lat), toDouble(lon)))
  {
    ParseUnsignedDigits(id);
    assert ParseUnsignedInt(line[0..k1]) == Some(id);
    assert ParseDouble(toDouble, line[k4..k5]) == Some(toDouble(lat));
    assert ParseDouble(toDouble, line[k6..k7]) == Some(toDouble(lon));
  }

  /** The node lines `readNode` accepts: the five fields separated by blanks (the
      coordinates with at least one digit, the elevation non-empty), then optional
      blanks; any other text after them is rejected. */
  lemma {:induction false} NodeLineFormat(toDouble: string -> real, id: nat, osm: string, lat: string, lon: string, elev: string,
                       g1: string, g2: string, g3: string, g4: string, pad: string, tail: string)
    requires id < 0x8000_0000 && AllDigits(osm) && |osm| > 0
    requires FloatText(lat) && HasDigit(lat) && FloatText(lon) && HasDigit(lon) && FloatText(elev) && |elev| > 0
    requires Blanks(g1) && Blanks(g2) && Blanks(g3) && Blanks(g4) && Blanks(pad)
    requires |g1| > 0 && |g2| > 0 && |g3| > 0 && |g4| > 0
    requires |tail| == 0 || (!IsWhitespace(tail[0]) && !IsDigit(tail[0]) && tail[0] != '.')
    ensures ParseNode(toDouble, Digits(id) + (g1 + (osm + (g2 + (lat + (g3 + (lon + (g4 + (elev + (pad + tail))))))))), 0)
         == if |tail| == 0 then Some(FmiNode(id, toDouble(lat), toDouble(lon))) else None
  {
    var r9 := pad + tail;
    var r8 := elev + r9;
    var r7 := g4 + r8;
    var r6 := lon + r7;
    var r5 := g3 + r6;
    var r4 := lat + r5;
    var r3 := g2 + r4;
    var r2 := osm + r3;
    var r1 := g1 + r2;
    var line := Digits(id) + r1;
    assert line[0..] == line;
    DigitNonEmpty(lat);
    DigitNonEmpty(lon);
    IntegerThenGap(line, 0, Digits(id), g1, r2);
    var k1 := |Digits(id)|;
    var k2 := k1 + |g1|;
    var k3 := k2 + |osm|;
    GapInteger(line, k1, g1, osm, g2, r4, k2, k3);
    var k4 := k3 + |g2|;
    var k5 := k4 + |lat|;
    GapFloat(line, k3, g2, lat, g3, r6, k4, k5);
    var k6 := k5 + |g3|;
    var k7 := k6 + |lon|;
    GapFloat(line, k5, g3, lon, g4, r8, k6, k7);
    var k8 := k7 + |g4|;
    var k9 := k8 + |elev|;
    GapLast(line, k7, g4, elev, pad, tail, k8, k9);
    NodeFields(toDouble, line, id, lat, lon, k1, k2, k3, k4, k5, k6, k7, k8, k9);
  }

  /** `ParseEdge` on a line whose field boundaries are known. */
  lemma {:induction false} EdgeFields(toDouble: string -> real, line: string, src: nat, trg: nat, cost: string,
                   k1: nat, k2: nat, k3: nat, k4: nat, k5: nat, k6: nat, k7: nat, k8: nat, k9: nat)
    requires src < 0x8000_0000 && trg < 0x8000_0000 && HasDigit(cost)
    requires k1 <= |line| && IntegerEnd(line, 0) == k1 && line[0..k1] == Digits(src)
    requires WhitespaceEnd(line, k1) == k2 && IntegerEnd(line, k2) == k3 && k3 <= |line| && line[k2..k3] == Digits(trg)
    requires WhitespaceEnd(line, k3) == k4 && FloatEnd(line, k4) == k5 && k5 <= |line| && line[k4..k5] == cost
    requires WhitespaceEnd(line, k5) == k6 && IntegerEnd(line, k6) == k7 && k6 < k7
    requires WhitespaceEnd(line, k7) == k8 && FloatEnd(line, k8) == k9 && k8 < k9
    ensures ParseEdge(toDouble, line, 0)
         == if WhitespaceEnd(line, k9) < |line| then None else Some(FmiEdge(src, trg, toDouble(cost)))
  {
    ParseUnsignedDigits(src);
    ParseUnsignedDigits(trg);
  }

  /** The edge lines `readEdge` accepts: the five fields separated by blanks (the cost
      with at least one digit, the last two fields non-empty), then optional blanks; any
      other text after them is rejected. */
  lemma {:induction false} EdgeLineFormat(toDouble: string -> real, src: nat, trg: nat, cost: string, kind: string, speed: string,
                       g1: string, g2: string, g3: string, g4: string, pad: string, tail: string)
    requires src < 0x8000_0000 && trg < 0x8000_0000 && AllDigits(kind) && |kind| > 0
    requires FloatText(cost) && HasDigit(cost) && FloatText(speed) && |speed| > 0
    requires Blanks(g1) && Blanks(g2) && Blanks(g3) && Blanks(g4) && Blanks(pad)
    requires |g1| > 0 && |g2| > 0 && |g3| > 0 && |g4| > 0
    requires |tail| == 0 || (!IsWhitespace(tail[0]) && !IsDigit(tail[0]) && tail[0] != '.')
    ensures ParseEdge(toDouble, Digits(src) + (g1 + (Digits(trg) + (g2 + (cost + (g3 + (kind + (g4 + (speed + (pad + tail))))))))), 0)
         == if |tail| == 0 then Some(FmiEdge(src, trg, toDouble(cost))) else None
  {
    var r9 := pad + tail;
    var r8 := speed + r9;
    var r7 := g4 + r8;
    var r6 := kind + r7;
    var r5 := g3 + r6;
    var r4 := cost + r5;
    var r3 := g2 + r4;
    var r2 := Digits(trg) + r3;
    var r1 := g1 + r2;
    var line := Digits(src) + r1;
    assert line[0..] == line;
    DigitNonEmpty(cost);
    IntegerThenGap(line, 0, Digits(src), g1, r2);
    var k1 := |Digits(src)|;
    var k2 := k1 + |g1|;
    var k3 := k2 + |Digits(trg)|;
    GapInteger(line, k1, g1, Digits(trg), g2, r4, k2, k3);
    var k4 := k3 + |g2|;
    var k5 := k4 + |cost|;
    GapFloat(line, k3, g2, cost, g3, r6, k4, k5);
    var k6 := k5 + |g3|;
    var k7 := k6 + |kind|;
    GapInteger(line, k5, g3, kind, g4, r8, k6, k7);
    var k8 := k7 + |g4|;
    var k9 := k8 + |speed|;
    GapLast(line, k7, g4, speed, pad, tail, k8, k9);
    EdgeFields(toDouble, line, src, trg, cost, k1, k2, k3, k4, k5, k6, k7, k8, k9);
  }

  /** The line parsers as values, for the record streams below. */
  function CountParser(): (string, nat) -> Option<Int32> {
    (line: string, k: nat) => if k <= |line| then ParseCount(line, k) else None
  }

  function NodeParser(toDouble: string -> real): (string, nat) -> Option<FmiNode> {
    (line: string, k: nat) => if k <= |line| then ParseNode(toDouble, line, k) else None
  }

  function EdgeParser(toDouble: string -> real): (string, nat) -> Option<FmiEdge> {
    (line: string, k: nat) => if k <= |line| then ParseEdge(toDouble, line, k) else None
  }

  // ---------------------------------------------------------------------------------
  // Record streams and the whole file

  /** The record on the next relevant line from line `n` on, and the index of the line
      after it. */
  function RecordAt<T>(parse: (string, nat) -> Option<T>, lines: seq<string>, n: nat): (r: Option<(T, nat)>)
    requires n <= |lines|
    ensures r.Some? ==> n < r.value.1 <= |lines|
  {
    var c := NextLine(lines, n);
    if c.None? then None
    else
      var t := parse(c.value.line, c.value.index);
      if t.None? then None else Some((t.value, c.value.next))
  }

  /** The next `count` records from line `n` on, and the index of the line after them. */
  function RecordsFrom<T>(parse: (string, nat) -> Option<T>, lines: seq<string>, n: nat, count: nat)
    : (r: Option<(seq<T>, nat)>)
    requires n <= |lines|
    decreases count
    ensures r.Some? ==> |r.value.0| == count && n <= r.value.1 <= |lines|
  {
    if count == 0 then Some(([], n))
    else
      var r := RecordsFrom(parse, lines, n, count - 1);
      if r.None? then None
      else
        var t := RecordAt(parse, lines, r.value.1);
        if t.None? then None else Some((r.value.0 + [t.value.0], t.value.1))
  }

  /** The first `i` of `count` records are the records of the first `i` reads; so a read
      that fails makes all longer reads fail. */
  lemma {:induction false} RecordsPrefix<T>(parse: (string, nat) -> Option<T>, lines: seq<string>, n: nat, i: nat, count: nat)
    requires n <= |lines| && i <= count
    ensures RecordsFrom(parse, lines, n, count).Some? ==>
              && RecordsFrom(parse, lines, n, i).Some?
              && RecordsFrom(parse, lines, n, i).value.0 == RecordsFrom(parse, lines, n, count).value.0[..i]
    decreases count
  {
    if i < count {
      RecordsPrefix(parse, lines, n, i, count - 1);
      var r := RecordsFrom(parse, lines, n, count - 1);
      if RecordsFrom(parse, lines, n, count).Some? {
        assert RecordsFrom(parse, lines, n, count).value.0[..count - 1] == r.value.0;
      }
    }
  }

  /** One more read extends the records read so far by the record it got, or fails. */
  lemma NextRecord<T>(parse: (string, nat) -> Option<T>, lines: seq<string>, n0: nat, i: nat,
                          rs: seq<T>, before: nat, t: Option<T>, next: nat, count: nat)
    requires n0 <= |lines| && i < count
    requires RecordsFrom(parse, lines, n0, i) == Some((rs, before))
    requires Got(t, RecordAt(parse, lines, before), next)
    ensures t.Some? ==> RecordsFrom(parse, lines, n0, i + 1) == Some((rs + [t.value], next))
    ensures var all := RecordsFrom(parse, lines, n0, count);
      all.Some? ==> t.Some? && all.value.0[..i + 1] == rs + [t.value]
  {
    RecordsPrefix(parse, lines, n0, i + 1, count);
  }

  /** The node ids lie in `[0, n)` and are pairwise different. */
  ghost predicate NodesValid(ns: seq<FmiNode>, n: int) {
    && (forall k :: 0 <= k < |ns| ==> 0 <= ns[k].id < n)
    && (forall k, l :: 0 <= k < l < |ns| ==> ns[k].id != ns[l].id)
  }

  /** Both endpoints of every edge lie in `[0, n)`. */
  ghost predicate EdgesValid(es: seq<FmiEdge>, n: int) {
    forall k :: 0 <= k < |es| ==> 0 <= es[k].srcId < n && 0 <= es[k].trgId < n
  }

  datatype Records = Records(nodes: seq<FmiNode>, edges: seq<FmiEdge>)

  /** What `read` makes of the file: the node and edge records, or `None` where it
      throws. The counts must not be negative (the arrays of that size are created). */
  ghost function GraphFile(toDouble: string -> real, lines: seq<string>): Option<Records> {
    var h := RecordsFrom(CountParser(), lines, 0, 2);
    if h.None? || h.value.0[0] < 0 || h.value.0[1] < 0 then None
    else NodesPart(toDouble, lines, h.value.0[0], h.value.0[1], h.value.1)
  }

  /** The rest of the file from line `n` on: `c0` node records and `c1` edge records. */
  ghost function NodesPart(toDouble: string -> real, lines: seq<string>, c0: nat, c1: nat, n: nat): Option<Records>
    requires n <= |lines|
  {
    var ns := RecordsFrom(NodeParser(toDouble), lines, n, c0);
    if ns.None? || !NodesValid(ns.value.0, c0) then None
    else EdgesPart(toDouble, lines, ns.value.0, c1, ns.value.1)
  }

  /** The rest of the file from line `n` on, after the node records `ns`: `c1` edge
      records. */
  ghost function EdgesPart(toDouble: string -> real, lines: seq<string>, ns: seq<FmiNode>, c1: nat, n: nat): Option<Records>
    requires n <= |lines|
  {
    var es := RecordsFrom(EdgeParser(toDouble), lines, n, c1);
    if es.None? || !EdgesValid(es.value.0, |ns|) then None
    else Some(Records(ns, es.value.0))
  }

  /** Some record has id `x`. */
  ghost predicate HasId(ns: seq<FmiNode>, x: int) {
    exists k :: 0 <= k < |ns| && ns[k].id == x
  }

  /** `count` pairwise different ids in `[0, count)` take every value there. */
  lemma FilledSlots(ns: seq<FmiNode>, count: nat)
    requires |ns| == count && NodesValid(ns, count)
    ensures forall x :: 0 <= x < count ==> HasId(ns, x)
  {
    var ids := set k | 0 <= k < |ns| :: ns[k].id;
    IdsCount(ns, |ns|);
    assert ids <= Below(count);
    assert Below(count) == ids + (Below(count) - ids);
    forall x | 0 <= x < count ensures HasId(ns, x) {
      assert x in Below(count);
      assert x in ids;
    }
  }

  lemma {:induction false} IdsCount(ns: seq<FmiNode>, m: nat)
    requires m <= |ns| && forall k, l :: 0 <= k < l < |ns| ==> ns[k].id != ns[l].id
    ensures |set k | 0 <= k < m :: ns[k].id| == m
    decreases m
  {
    if m > 0 {
      IdsCount(ns, m - 1);
      var before := set k | 0 <= k < m - 1 :: ns[k].id;
      assert (set k | 0 <= k < m :: ns[k].id) == before + {ns[m - 1].id};
      assert ns[m - 1].id !in before;
    }
  }

  /** The numbers `0 .. n - 1`. */
  ghost function Below(n: nat): (r: set<int>)
    ensures |r| == n && forall x :: x in r <==> 0 <= x < n
  {
    if n == 0 then {} else Below(n - 1) + {n - 1}
  }

  /** The edge object `read` makes of an edge record. */
  function EdgeOf(nodes: seq<Node?>, e: FmiEdge): Edge
    requires 0 <= e.srcId < |nodes| && 0 <= e.trgId < |nodes|
    requires nodes[e.srcId] != null && nodes[e.trgId] != null
  {
    Edge(nodes[e.srcId], nodes[e.trgId], e.cost)
  }

  /** The edges of `es` whose source is `v`, in input order, as edge objects. */
  function Adjacency(nodes: seq<Node?>, es: seq<FmiEdge>, v: int): seq<Edge>
    requires EdgesValid(es, |nodes|) && forall x :: 0 <= x < |nodes| ==> nodes[x] != null
    decreases |es|
  {
    if |es| == 0 then []
    else
      var r := Adjacency(nodes, es[..|es| - 1], v);
      var e := es[|es| - 1];
      if e.srcId == v then r + [EdgeOf(nodes, e)] else r
  }

  /** Node `v`'s list holds exactly the edges whose source is `v`. */
  lemma {:induction false} AdjacencyMembers(nodes: seq<Node?>, es: seq<FmiEdge>, v: int, x: Edge)
    requires EdgesValid(es, |nodes|) && forall y :: 0 <= y < |nodes| ==> nodes[y] != null
    ensures x in Adjacency(nodes, es, v) <==> exists k :: 0 <= k < |es| && es[k].srcId == v && x == EdgeOf(nodes, es[k])
    decreases |es|
  {
    if |es| > 0 {
      var es' := es[..|es| - 1];
      assert EdgesValid(es', |nodes|);
      AdjacencyMembers(nodes, es', v, x);
      if exists k :: 0 <= k < |es| && es[k].srcId == v && x == EdgeOf(nodes, es[k]) {
        var k :| 0 <= k < |es| && es[k].srcId == v && x == EdgeOf(nodes, es[k]);
        if k < |es| - 1 {
          assert es'[k] == es[k];
        }
      }
      if exists k :: 0 <= k < |es'| && es'[k].srcId == v && x == EdgeOf(nodes, es'[k]) {
        var k :| 0 <= k < |es'| && es'[k].srcId == v && x == EdgeOf(nodes, es'[k]);
        assert es[k] == es'[k];
      }
    }
  }

  /** Every edge is in the list of exactly one node, its source. */
  lemma AdjacencyOnce(nodes: seq<Node?>, es: seq<FmiEdge>, k: int, v: int)
    requires EdgesValid(es, |nodes|) && forall y :: 0 <= y < |nodes| ==> nodes[y] != null
    requires forall y :: 0 <= y < |nodes| ==> nodes[y] != null && nodes[y].id == y
    requires 0 <= k < |es| && 0 <= v < |nodes|
    ensures EdgeOf(nodes, es[k]) in Adjacency(nodes, es, v) <==> es[k].srcId == v
  {
    AdjacencyMembers(nodes, es, v, EdgeOf(nodes, es[k]));
    if EdgeOf(nodes, es[k]) in Adjacency(nodes, es, v) {
      var l :| 0 <= l < |es| && es[l].srcId == v && EdgeOf(nodes, es[k]) == EdgeOf(nodes, es[l]);
      assert nodes[es[l].srcId].id == nodes[es[k].srcId].id;
    }
  }

  // ---------------------------------------------------------------------------------
  // The reader and the scanning state

  /** A `BufferedReader` over the lines of a file: `next` is the index of the line the
      next `readLine` returns. */
  class LineReader {
    const lines: seq<string>
    var next: nat

    predicate Valid()
      reads this
    {
      next <= |lines|
    }

    constructor (lines: seq<string>)
      ensures this.lines == lines && next == 0 && Valid()
    {
      this.lines := lines;
      next := 0;
    }

    /** The next line, or `None` (Java's `null`) after the last one. */
    method ReadLine() returns (line: Option<string>)
      requires Valid()
      modifies this
      ensures Valid()
      ensures old(next) < |lines| ==> line == Some(lines[old(next)]) && next == old(next) + 1
      ensures old(next) == |lines| ==> line == None && next == old(next)
    {
      if next < |lines| {
        line := Some(lines[next]);
        next := next + 1;
      } else {
        line := None;
      }
    }
  }

  /** The current line and the index scanning has reached in it. */
  class StringPosition {
    var str: Option<string>
    var index: int

    constructor ()
      ensures str == None && index == -1
    {
      str := None;
      index := -1;
    }
  }

  /** Reads lines up to and including the next relevant one and leaves it, with the index
      of its first non-blank character, in `pos`; at the end of the file `pos` is
      `null` and -1. */
  method GetNextRelevantLine(pos: StringPosition, reader: LineReader)
    requires reader.Valid()
    modifies pos, reader
    ensures reader.Valid()
    ensures var c := NextLine(reader.lines, old(reader.next));
      if c.Some? then pos.str == Some(c.value.line) && pos.index == c.value.index && reader.next == c.value.next
      else pos.str == None && pos.index == -1 && reader.next == |reader.lines|
  {
    while true
      invariant reader.Valid() && old(reader.next) <= reader.next
      invariant NextRelevant(reader.lines, reader.next) == NextRelevant(reader.lines, old(reader.next))
      decreases |reader.lines| - reader.next
    {
      var line := reader.ReadLine();
      if line.None? {
        break;
      }
      var i := SkipWhitespace(line.value, 0);
      if i < |line.value| && line.value[i] != '#' {
        pos.str := line;
        pos.index := i;
        return;
      }
    }
    pos.str := None;
    pos.index := -1;
  }

  /** A read that returned `t` agrees with the record `r` the file holds there, and
      stopped after its line. */
  predicate Got<T(==)>(t: Option<T>, r: Option<(T, nat)>, next: nat) {
    && (t.Some? <==> r.Some?)
    && (t.Some? ==> t.value == r.value.0 && next == r.value.1)
  }

  /** One count line of `readHeader`. */
  method ReadCount(reader: LineReader, pos: StringPosition) returns (c: Option<Int32>)
    requires reader.Valid()
    modifies reader, pos
    ensures reader.Valid()
    ensures Got(c, RecordAt(CountParser(), reader.lines, old(reader.next)), reader.next)
  {
    GetNextRelevantLine(pos, reader);
    if pos.str.None? {
      return None;
    }
    var line := pos.str.value;
    var end := SkipInteger(line, pos.index);
    IntegerEndDigits(line, pos.index);
    c := ParseUnsignedInt(line[pos.index..end]);
    if c.None? {
      return;
    }
    end := SkipWhitespace(line, end);
    if end < |line| {
      c := None;
    }
  }

  /** `readHeader`: the node count and the edge count, from the first two relevant
      lines; `false` where Java throws. */
  method ReadHeader(cnt: array<Int32>, reader: LineReader, pos: StringPosition) returns (ok: bool)
    requires cnt.Length == 2 && reader.Valid()
    modifies cnt, reader, pos
    ensures reader.Valid()
    ensures var h := RecordsFrom(CountParser(), reader.lines, old(reader.next), 2);
      && (ok <==> h.Some?)
      && (ok ==> cnt[..] == h.value.0 && reader.next == h.value.1)
  {
    ghost var n0 := reader.next;
    assert RecordsFrom(CountParser(), reader.lines, n0, 0) == Some(([], n0));
    var c := ReadCount(reader, pos);
    if c.None? {
      return false;
    }
    cnt[0] := c.value;
    ghost var n1 := reader.next;
    assert [] + [c.value] == [c.value];
    assert RecordsFrom(CountParser(), reader.lines, n0, 1) == Some(([c.value], n1));
    c := ReadCount(reader, pos);
    if c.None? {
      return false;
    }
    cnt[1] := c.value;
    assert cnt[..] == [cnt[0], cnt[1]];
    ok := true;
  }

  /** `readNode`: the node record on the next relevant line; `None` where Java throws. */
  method ReadNode(reader: LineReader, pos: StringPosition, toDouble: string -> real) returns (t: Option<FmiNode>)
    requires reader.Valid()
    modifies reader, pos
    ensures reader.Valid()
    ensures Got(t, RecordAt(NodeParser(toDouble), reader.lines, old(reader.next)), reader.next)
  {
    GetNextRelevantLine(pos, reader);
    if pos.str.None? {
      return None;
    }
    t := ScanNode(pos, toDouble);
  }

  /** The fields of a node line, scanned from `pos`. */
  method ScanNode(pos: StringPosition, toDouble: string -> real) returns (t: Option<FmiNode>)
    requires pos.str.Some? && 0 <= pos.index <= |pos.str.value|
    modifies pos
    ensures pos.str == old(pos.str)
    ensures t == ParseNode(toDouble, pos.str.value, old(pos.index))
  {
    var line := pos.str.value;
    var end := SkipInteger(line, pos.index);
    IntegerEndDigits(line, pos.index);
    var id := ParseUnsignedInt(line[pos.index..end]);
    if id.None? {
      return None;
    }
    pos.index := SkipWhitespace(line, end);
    end := SkipInteger(line, pos.index);
    if pos.index == end {
      return None;
    }
    pos.index := SkipWhitespace(line, end);
    end := SkipFloat(line, pos.index);
    var latitude := ParseDouble(toDouble, line[pos.index..end]);
    if latitude.None? {
      return None;
    }
    pos.index := SkipWhitespace(line, end);
    end := SkipFloat(line, pos.index);
    var longitude := ParseDouble(toDouble, line[pos.index..end]);
    if longitude.None? {
      return None;
    }
    pos.index := SkipWhitespace(line, end);
    end := SkipFloat(line, pos.index);
    if pos.index == end {
      return None;
    }
    end := SkipWhitespace(line, end);
    if end < |line| {
      return None;
    }
    t := Some(FmiNode(id.value, latitude.value, longitude.value));
  }

  /** `readEdge`: the edge record on the next relevant line; `None` where Java throws. */
  method ReadEdge(reader: LineReader, pos: StringPosition, toDouble: string -> real) returns (t: Option<FmiEdge>)
    requires reader.Valid()
    modifies reader, pos
    ensures reader.Valid()
    ensures Got(t, RecordAt(EdgeParser(toDouble), reader.lines, old(reader.next)), reader.next)
  {
    GetNextRelevantLine(pos, reader);
    if pos.str.None? {
      return None;
    }
    t := ScanEdge(pos, toDouble);
  }

  /** The fields of an edge line, scanned from `pos`. */
  method ScanEdge(pos: StringPosition, toDouble: string -> real) returns (t: Option<FmiEdge>)
    requires pos.str.Some? && 0 <= pos.index <= |pos.str.value|
    modifies pos
    ensures pos.str == old(pos.str)
    ensures t == ParseEdge(toDouble, pos.str.value, old(pos.index))
  {
    var line := pos.str.value;
    var end := SkipInteger(line, pos.index);
    IntegerEndDigits(line, pos.index);
    var srcId := ParseUnsignedInt(line[pos.index..end]);
    if srcId.None? {
      return None;
    }
    pos.index := SkipWhitespace(line, end);
    end := SkipInteger(line, pos.index);
    IntegerEndDigits(line, pos.index);
    var trgId := ParseUnsignedInt(line[pos.index..end]);
    if trgId.None? {
      return None;
    }
    pos.index := SkipWhitespace(line, end);
    end := SkipFloat(line, pos.index);
    var cost := ParseDouble(toDouble, line[pos.index..end]);
    if cost.None? {
      return None;
    }
    pos.index := SkipWhitespace(line, end);
    end := SkipInteger(line, pos.index);
    if pos.index == end {
      return None;
    }
    pos.index := SkipWhitespace(line, end);
    end := SkipFloat(line, pos.index);
    if pos.index == end {
      return None;
    }
    end := SkipWhitespace(line, end);
    if end < |line| {
      return None;
    }
    t := Some(FmiEdge(srcId.value, trgId.value, cost.value));
  }

  // ---------------------------------------------------------------------------------
  // Building the graph

  /** Node `n` is the node made of record `t`, with no edges yet. */
  predicate Holds(n: Node?, t: FmiNode)
    reads n
  {
    && n != null && n.id == t.id && n.latitude == t.latitude && n.longitude == t.longitude
    && n.edges == None && n.distance == Graphs.MaxInt
  }

  /** The node array after storing the records `ns`: valid records, each at the index
      of its id, and nothing else. */
  ghost predicate Stored(nodes: array<Node?>, ns: seq<FmiNode>)
    reads nodes, nodes[..]
  {
    && NodesValid(ns, nodes.Length)
    && (forall x :: 0 <= x < nodes.Length ==> (nodes[x] != null <==> HasId(ns, x)))
    && (forall k :: 0 <= k < |ns| ==> Holds(nodes[ns[k].id], ns[k]))
  }

  /** The first loop of `read`: `count` node records, each stored at the index of its id;
      `false` where Java throws (a record missing or malformed, an id out of range or
      seen before). */
  method ReadNodes(reader: LineReader, pos: StringPosition, toDouble: string -> real, count: Int32, nodes: array<Node?>)
    returns (ok: bool, relations: seq<seq<Edge>>, ghost ns: seq<FmiNode>)
    requires reader.Valid() && 0 <= count && nodes.Length == count as int
    requires forall x :: 0 <= x < count ==> nodes[x] == null
    modifies reader, pos, nodes
    ensures reader.Valid()
    ensures var r := RecordsFrom(NodeParser(toDouble), reader.lines, old(reader.next), count as nat);
      && (ok <==> r.Some? && NodesValid(r.value.0, count as nat))
      && (ok ==> r == Some((ns, reader.next)))
    ensures ok ==> |relations| == count as int && forall x :: 0 <= x < count ==> relations[x] == []
    ensures ok ==> Unlinked(nodes) && Placed(nodes, ns) && forall x :: 0 <= x < count ==> fresh(nodes[x])
  {
    ok, ns := NodeLoop(reader, pos, toDouble, count, nodes);
    relations := NoEdges(count as nat);
    if ok {
      FilledArray(nodes, ns);
      NoEdgesYet(count as nat);
    }
  }

  /** The loop of `ReadNodes`: `count` rounds of `NodeRound`. */
  method NodeLoop(reader: LineReader, pos: StringPosition, toDouble: string -> real, count: Int32, nodes: array<Node?>)
    returns (ok: bool, ghost ns: seq<FmiNode>)
    requires reader.Valid() && 0 <= count && nodes.Length == count as int
    requires forall x :: 0 <= x < count ==> nodes[x] == null
    modifies reader, pos, nodes
    ensures reader.Valid()
    ensures var r := RecordsFrom(NodeParser(toDouble), reader.lines, old(reader.next), count as nat);
      !ok ==> r.None? || !NodesValid(r.value.0, count as nat)
    ensures ok ==> RecordsFrom(NodeParser(toDouble), reader.lines, old(reader.next), count as nat) == Some((ns, reader.next))
    ensures ok ==> |ns| == count as int && Stored(nodes, ns)
    ensures forall x :: 0 <= x < count && nodes[x] != null ==> fresh(nodes[x])
  {
    ghost var n0 := reader.next;
    ns := [];
    for i := 0 to count
      invariant reader.Valid()
      invariant RecordsFrom(NodeParser(toDouble), reader.lines, n0, i) == Some((ns, reader.next))
      invariant |ns| == i && Stored(nodes, ns)
      invariant forall x :: 0 <= x < count && nodes[x] != null ==> fresh(nodes[x])
    {
      ok, ns := NodeRound(reader, pos, toDouble, count, nodes, n0, i, ns);
      if !ok {
        return false, ns;
      }
    }
    ok := true;
  }

  /** The adjacency lists of `n` nodes before any edge is read. */
  function NoEdges(n: nat): (r: seq<seq<Edge>>)
    ensures |r| == n
  {
    if n == 0 then [] else NoEdges(n - 1) + [[]]
  }

  lemma {:induction false} NoEdgesYet(n: nat)
    ensures forall x :: 0 <= x < n ==> NoEdges(n)[x] == []
  {
    if n > 0 {
      NoEdgesYet(n - 1);
      assert forall x :: 0 <= x < n - 1 ==> NoEdges(n)[x] == NoEdges(n - 1)[x];
    }
  }

  /** One round of the node loop: read the next node line and store its node. */
  method NodeRound(reader: LineReader, pos: StringPosition, toDouble: string -> real, count: Int32,
                   nodes: array<Node?>, ghost n0: nat, ghost i: nat, ghost ns: seq<FmiNode>)
    returns (ok: bool, ghost ns': seq<FmiNode>)
    requires reader.Valid() && n0 <= |reader.lines| && 0 <= i < count && nodes.Length == count as int
    requires RecordsFrom(NodeParser(toDouble), reader.lines, n0, i) == Some((ns, reader.next))
    requires |ns| == i && Stored(nodes, ns)
    modifies reader, pos, nodes
    ensures reader.Valid()
    ensures var all := RecordsFrom(NodeParser(toDouble), reader.lines, n0, count as nat);
      !ok ==> all.None? || !NodesValid(all.value.0, count as nat)
    ensures ok ==> RecordsFrom(NodeParser(toDouble), reader.lines, n0, i + 1) == Some((ns', reader.next))
    ensures ok ==> |ns'| == i + 1 && Stored(nodes, ns')
    ensures forall x :: 0 <= x < nodes.Length ==> nodes[x] == old(nodes[x]) || fresh(nodes[x])
  {
    ghost var before := reader.next;
    var t := ReadNode(reader, pos, toDouble);
    NextRecord(NodeParser(toDouble), reader.lines, n0, i, ns, before, t, reader.next, count as nat);
    ghost var all := RecordsFrom(NodeParser(toDouble), reader.lines, n0, count as nat);
    ok, ns' := AddNode(nodes, t, all, i, ns);
  }

  /** After as many stored records as slots, node `x` is in every slot `x`. */
  lemma FilledArray(nodes: array<Node?>, ns: seq<FmiNode>)
    requires Stored(nodes, ns) && |ns| == nodes.Length
    ensures Unlinked(nodes) && Placed(nodes, ns)
  {
    FilledSlots(ns, nodes.Length);
    forall x | 0 <= x < nodes.Length
      ensures nodes[x] != null && nodes[x].id == x && nodes[x].edges == None && nodes[x].distance == Graphs.MaxInt
    {
      assert HasId(ns, x);
      var k :| 0 <= k < |ns| && ns[k].id == x;
      assert Holds(nodes[ns[k].id], ns[k]);
    }
  }

  /** Node `x` in every slot `x`, reset and without edges. */
  ghost predicate Unlinked(nodes: array<Node?>)
    reads nodes, nodes[..]
  {
    forall x :: 0 <= x < nodes.Length ==>
      nodes[x] != null && nodes[x].id == x && nodes[x].edges == None && nodes[x].distance == Graphs.MaxInt
  }

  /** Node `x` in every slot `x`, reset and with the edges `adjacency[x]`. */
  ghost predicate Linked(nodes: array<Node?>, adjacency: seq<seq<Edge>>)
    reads nodes, nodes[..]
  {
    && |adjacency| == nodes.Length
    && forall x :: 0 <= x < nodes.Length ==>
         nodes[x] != null && nodes[x].id == x && nodes[x].edges == Some(adjacency[x]) && nodes[x].distance == Graphs.MaxInt
  }

  /** Every record's node, at the index of its id, has the record's coordinates. */
  ghost predicate Placed(nodes: array<Node?>, ns: seq<FmiNode>)
    reads nodes
  {
    forall k :: 0 <= k < |ns| ==>
      && 0 <= ns[k].id < nodes.Length && nodes[ns[k].id] != null
      && nodes[ns[k].id].latitude == ns[k].latitude && nodes[ns[k].id].longitude == ns[k].longitude
  }

  /** One round of the first loop of `read`, after `readNode` returned `t`: stores the
      node, or fails where Java throws. */
  method AddNode(nodes: array<Node?>, t: Option<FmiNode>, ghost all: Option<(seq<FmiNode>, nat)>,
                 ghost i: nat, ghost ns: seq<FmiNode>)
    returns (ok: bool, ghost ns': seq<FmiNode>)
    requires i < nodes.Length < 0x8000_0000 && |ns| == i && Stored(nodes, ns)
    requires all.Some? ==> |all.value.0| == nodes.Length && t.Some? && all.value.0[..i + 1] == ns + [t.value]
    modifies nodes
    ensures !ok ==> all.None? || !NodesValid(all.value.0, nodes.Length)
    ensures ok ==> t.Some? && ns' == ns + [t.value] && Stored(nodes, ns')
    ensures forall x :: 0 <= x < nodes.Length ==> nodes[x] == old(nodes[x]) || fresh(nodes[x])
  {
    if t.None? {
      return false, ns;
    }
    if t.value.id < 0 || t.value.id >= nodes.Length || nodes[t.value.id] != null {
      if all.Some? {
        NodeRejected(all.value.0, i, nodes.Length, ns, t.value);
      }
      return false, ns;
    }
    Store(nodes, t.value, ns);
    ok, ns' := true, ns + [t.value];
  }

  /** `nodes[t.id] = new Node(t.id, t.latitude, t.longitude)` into a free slot. */
  method Store(nodes: array<Node?>, t: FmiNode, ghost ns: seq<FmiNode>)
    requires Stored(nodes, ns) && 0 <= t.id < nodes.Length && nodes[t.id] == null
    modifies nodes
    ensures Stored(nodes, ns + [t])
    ensures fresh(nodes[t.id]) && forall x :: 0 <= x < nodes.Length && x != t.id ==> nodes[x] == old(nodes[x])
  {
    assert !HasId(ns, t.id);
    NodesValidSnoc(ns, t, nodes.Length);
    var n := new Node.WithoutEdges(t.id, t.latitude, t.longitude);
    nodes[t.id] := n;
    ghost var ns' := ns + [t];
    forall x | 0 <= x < nodes.Length ensures nodes[x] != null <==> HasId(ns', x) {
      if x != t.id {
        assert nodes[x] == old(nodes[x]);
      }
    }
    forall k | 0 <= k < |ns'| ensures Holds(nodes[ns'[k].id], ns'[k]) {
      if k < |ns| {
        assert ns'[k] == ns[k] && ns[k].id != t.id;
        assert old(Holds(nodes[ns[k].id], ns[k]));
        assert nodes[ns[k].id] == old(nodes[ns[k].id]);
      }
    }
  }

  /** A node record whose id is out of range or was seen before makes every longer
      run of records invalid. */
  lemma NodeRejected(all: seq<FmiNode>, i: nat, count: int, ns: seq<FmiNode>, t: FmiNode)
    requires i < |all| && all[..i + 1] == ns + [t]
    requires t.id < 0 || t.id >= count || HasId(ns, t.id)
    ensures !NodesValid(all, count)
  {
    assert all[i] == (ns + [t])[i] == t;
    if HasId(ns, t.id) {
      var k :| 0 <= k < |ns| && ns[k].id == t.id;
      assert all[k] == (ns + [t])[k] == ns[k];
    }
  }

  /** A record with a new id in range keeps the records valid, and adds its id. */
  lemma NodesValidSnoc(ns: seq<FmiNode>, t: FmiNode, count: int)
    requires NodesValid(ns, count) && 0 <= t.id < count && !HasId(ns, t.id)
    ensures NodesValid(ns + [t], count)
    ensures forall x :: HasId(ns + [t], x) <==> HasId(ns, x) || x == t.id
  {
    var ns' := ns + [t];
    forall x ensures HasId(ns', x) <==> HasId(ns, x) || x == t.id {
      if HasId(ns, x) {
        var k :| 0 <= k < |ns| && ns[k].id == x;
        assert ns'[k] == ns[k];
      }
      if x == t.id {
        assert ns'[|ns|] == t;
      }
      if HasId(ns', x) {
        var k :| 0 <= k < |ns'| && ns'[k].id == x;
        if k < |ns| {
          assert ns[k] == ns'[k];
        }
      }
    }
    forall k, l | 0 <= k < l < |ns'| ensures ns'[k].id != ns'[l].id {
      if l == |ns| {
        assert ns'[k] == ns[k];
      }
    }
  }

  /** An edge record with an endpoint out of range makes every longer run of records
      invalid. */
  lemma EdgeRejected(all: seq<FmiEdge>, i: nat, count: int, es: seq<FmiEdge>, t: FmiEdge)
    requires i < |all| && all[..i + 1] == es + [t]
    requires t.srcId < 0 || t.srcId >= count || t.trgId < 0 || t.trgId >= count
    ensures !EdgesValid(all, count)
  {
    assert all[i] == (es + [t])[i] == t;
  }

  /** Appending an edge record appends its edge to its source's list only. */
  lemma AdjacencySnoc(nodes: seq<Node?>, es: seq<FmiEdge>, t: FmiEdge)
    requires EdgesValid(es, |nodes|) && forall y :: 0 <= y < |nodes| ==> nodes[y] != null
    requires 0 <= t.srcId < |nodes| && 0 <= t.trgId < |nodes|
    ensures EdgesValid(es + [t], |nodes|)
    ensures forall x :: Adjacency(nodes, es + [t], x) == Adjacency(nodes, es, x) + (if t.srcId == x then [EdgeOf(nodes, t)] else [])
  {
    assert (es + [t])[..|es|] == es;
    forall k | 0 <= k < |es| + 1 ensures 0 <= (es + [t])[k].srcId < |nodes| && 0 <= (es + [t])[k].trgId < |nodes| {
      if k < |es| {
        assert (es + [t])[k] == es[k];
      }
    }
  }

  /** The second loop of `read`: `count` edge records, each appended to the list of its
      source node; `false` where Java throws (a record missing or malformed, an endpoint
      out of range). */
  method ReadEdges(reader: LineReader, pos: StringPosition, toDouble: string -> real, count: Int32,
                   nodes: array<Node?>, relations: seq<seq<Edge>>)
    returns (ok: bool, adjacency: seq<seq<Edge>>, ghost es: seq<FmiEdge>)
    requires reader.Valid() && 0 <= count && |relations| == nodes.Length < 0x8000_0000
    requires forall x :: 0 <= x < nodes.Length ==> nodes[x] != null && relations[x] == []
    modifies reader, pos
    ensures reader.Valid()
    ensures var r := RecordsFrom(EdgeParser(toDouble), reader.lines, old(reader.next), count as nat);
      && (ok <==> r.Some? && EdgesValid(r.value.0, nodes.Length))
      && (ok ==> r == Some((es, reader.next)))
    ensures ok ==> |adjacency| == nodes.Length && EdgesValid(es, nodes.Length)
    ensures ok ==> forall x :: 0 <= x < nodes.Length ==> adjacency[x] == Adjacency(nodes[..], es, x)
  {
    ghost var n0 := reader.next;
    ghost var lines := reader.lines;
    adjacency := relations;
    es := [];
    for i := 0 to count
      invariant reader.Valid() && reader.lines == lines
      invariant RecordsFrom(EdgeParser(toDouble), lines, n0, i) == Some((es, reader.next))
      invariant |es| == i && EdgesValid(es, nodes.Length) && |adjacency| == nodes.Length
      invariant forall x :: 0 <= x < nodes.Length ==> adjacency[x] == Adjacency(nodes[..], es, x)
    {
      ok, adjacency, es := AddEdge(reader, pos, toDouble, nodes, adjacency, n0, i, es, count as nat);
      if !ok {
        return false, adjacency, es;
      }
    }
    RecordsPrefix(EdgeParser(toDouble), lines, n0, count as nat, count as nat);
    ok := true;
  }

  /** One round of the second loop of `read`. */
  method AddEdge(reader: LineReader, pos: StringPosition, toDouble: string -> real, nodes: array<Node?>,
                 adjacency: seq<seq<Edge>>, ghost n0: nat, ghost i: nat, ghost es: seq<FmiEdge>, ghost count: nat)
    returns (ok: bool, adjacency': seq<seq<Edge>>, ghost es': seq<FmiEdge>)
    requires reader.Valid() && n0 <= |reader.lines| && i < count && nodes.Length < 0x8000_0000
    requires forall x :: 0 <= x < nodes.Length ==> nodes[x] != null
    requires RecordsFrom(EdgeParser(toDouble), reader.lines, n0, i) == Some((es, reader.next))
    requires EdgesValid(es, nodes.Length) && |adjacency| == nodes.Length
    requires forall x :: 0 <= x < nodes.Length ==> adjacency[x] == Adjacency(nodes[..], es, x)
    modifies reader, pos
    ensures reader.Valid()
    ensures !ok ==> var r := RecordsFrom(EdgeParser(toDouble), reader.lines, n0, count);
      r.None? || !EdgesValid(r.value.0, nodes.Length)
    ensures ok ==> RecordsFrom(EdgeParser(toDouble), reader.lines, n0, i + 1) == Some((es', reader.next))
    ensures ok ==> |es'| == i + 1 && EdgesValid(es', nodes.Length) && |adjacency'| == nodes.Length
    ensures ok ==> forall x :: 0 <= x < nodes.Length ==> adjacency'[x] == Adjacency(nodes[..], es', x)
  {
    ghost var lines := reader.lines;
    ghost var before := reader.next;
    var t := ReadEdge(reader, pos, toDouble);
    NextRecord(EdgeParser(toDouble), lines, n0, i, es, before, t, reader.next, count);
    if t.None? {
      return false, adjacency, es;
    }
    var src, trg := t.value.srcId, t.value.trgId;
    if src < 0 || src >= nodes.Length || trg < 0 || trg >= nodes.Length {
      ghost var r := RecordsFrom(EdgeParser(toDouble), lines, n0, count);
      if r.Some? {
        EdgeRejected(r.value.0, i, nodes.Length, es, t.value);
      }
      return false, adjacency, es;
    }
    var e := Edge(nodes[src], nodes[trg], t.value.cost);
    es' := es + [t.value];
    AdjacencySnoc(nodes[..], es, t.value);
    ok, adjacency' := true, adjacency[src := adjacency[src] + [e]];
  }

  /** The third loop of `read`: every node gets its list as its edge array. */
  method Attach(nodes: array<Node?>, adjacency: seq<seq<Edge>>)
    requires |adjacency| == nodes.Length && Unlinked(nodes)
    modifies nodes[..]
    ensures Linked(nodes, adjacency)
  {
    for i := 0 to nodes.Length
      invariant forall x :: 0 <= x < nodes.Length ==> nodes[x] != null && nodes[x].id == x && nodes[x].distance == Graphs.MaxInt
      invariant forall x :: 0 <= x < i ==> nodes[x].edges == Some(adjacency[x])
    {
      nodes[i].SetEdges(Some(adjacency[i]));
    }
  }

  /** The pieces the three loops of `read` leave make up the graph of the records. */
  lemma Assembled(nodes: array<Node?>, ns: seq<FmiNode>, es: seq<FmiEdge>, adjacency: seq<seq<Edge>>)
    requires |ns| == nodes.Length && NodesValid(ns, nodes.Length) && EdgesValid(es, nodes.Length)
    requires Linked(nodes, adjacency) && Placed(nodes, ns)
    requires forall x :: 0 <= x < nodes.Length ==> adjacency[x] == Adjacency(nodes[..], es, x)
    ensures Built(nodes, Records(ns, es))
  {
  }

  /** The graph `read` builds from records `g`: node `x` at index `x` with the coordinates
      of its record, a reset distance, and the edges whose source it is, in input order. */
  ghost predicate Built(nodes: array<Node?>, g: Records)
    reads nodes, nodes[..]
  {
    && nodes.Length == |g.nodes| && NodesValid(g.nodes, nodes.Length) && EdgesValid(g.edges, nodes.Length)
    && (forall x :: 0 <= x < nodes.Length ==> nodes[x] != null && nodes[x].id == x && nodes[x].distance == Graphs.MaxInt)
    && (forall k :: 0 <= k < |g.nodes| ==>
          nodes[g.nodes[k].id].latitude == g.nodes[k].latitude && nodes[g.nodes[k].id].longitude == g.nodes[k].longitude)
    && (forall x :: 0 <= x < nodes.Length ==> nodes[x].edges == Some(Adjacency(nodes[..], g.edges, x)))
  }

  /** `read`: the graph of the file with lines `lines`, or `None` where Java throws. */
  method Read(lines: seq<string>, toDouble: string -> real) returns (r: Option<array<Node?>>)
    ensures r.Some? <==> GraphFile(toDouble, lines).Some?
    ensures r.Some? ==> Built(r.value, GraphFile(toDouble, lines).value)
    ensures r.Some? ==> fresh(r.value) && forall x :: 0 <= x < r.value.Length ==> fresh(r.value[x])
  {
    var reader := new LineReader(lines);
    var pos := new StringPosition();
    var cnt := new Int32[2];
    var ok := ReadHeader(cnt, reader, pos);
    if !ok {
      return None;
    }
    if cnt[0] < 0 || cnt[1] < 0 {
      return None;
    }
    assert GraphFile(toDouble, lines) == NodesPart(toDouble, lines, cnt[0] as nat, cnt[1] as nat, reader.next);
    r := ReadGraph(reader, pos, toDouble, cnt[0], cnt[1]);
  }

  /** The three loops of `read`, after the header: `c0` nodes and `c1` edges. */
  method ReadGraph(reader: LineReader, pos: StringPosition, toDouble: string -> real, c0: Int32, c1: Int32)
    returns (r: Option<array<Node?>>)
    requires reader.Valid() && 0 <= c0 && 0 <= c1
    modifies reader, pos
    ensures var g := NodesPart(toDouble, reader.lines, c0 as nat, c1 as nat, old(reader.next));
      && (r.Some? <==> g.Some?)
      && (r.Some? ==> Built(r.value, g.value))
    ensures r.Some? ==> fresh(r.value) && forall x :: 0 <= x < r.value.Length ==> fresh(r.value[x])
  {
    ghost var lines := reader.lines;
    ghost var n1 := reader.next;
    var nodes := new Node?[c0](_ => null);
    var relations;
    ghost var ns;
    var ok;
    ok, relations, ns := ReadNodes(reader, pos, toDouble, c0, nodes);
    if !ok {
      return None;
    }
    assert NodesPart(toDouble, lines, c0 as nat, c1 as nat, n1) == EdgesPart(toDouble, lines, ns, c1 as nat, reader.next);
    var adjacency;
    ghost var es;
    ok, adjacency, es := ReadEdges(reader, pos, toDouble, c1, nodes, relations);
    if !ok {
      return None;
    }
    Attach(nodes, adjacency);
    Assembled(nodes, ns, es, adjacency);
    r := Some(nodes);
  }
}
