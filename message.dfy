/**
 * The string logic of `Message` (sender/message.py): the address check
 * `_is_valid_email`, the four-way validation `_check`, and the template
 * parser `_parse_template`.
 *
 * Both regular expressions are modelled as what Python's backtracking engine
 * computes for them, not as general regular expressions.
 */
module Message {
  import opened Results
  import opened Text

  // ================================================================ _is_valid_email

  /** `[a-zA-Z0-9._%+-]`: a character of the part before `@`. */
  predicate IsLocalChar(c: char) {
    IsAsciiLetter(c) || IsAsciiDigit(c) || c == '.' || c == '_' || c == '%' || c == '+' || c == '-'
  }

  /** `[a-zA-Z0-9.-]`: a character of the part between `@` and the final dot. */
  predicate IsDomainChar(c: char) {
    IsAsciiLetter(c) || IsAsciiDigit(c) || c == '.' || c == '-'
  }

  /** `s` reads L `@` D `.` T with the `@` at `at` and the dot at `dot`, where L is one or more
      local characters, D one or more domain characters and T two or more ASCII letters. */
  ghost predicate ShapedAt(s: string, at: int, dot: int) {
    && 1 <= at && at + 2 <= dot && dot + 3 <= |s|
    && (forall k :: 0 <= k < at ==> IsLocalChar(s[k]))
    && s[at] == '@'
    && (forall k :: at < k < dot ==> IsDomainChar(s[k]))
    && s[dot] == '.'
    && (forall k :: dot < k < |s| ==> IsAsciiLetter(s[k]))
  }

  /** The whole of `s` matches `[a-zA-Z0-9._%+-]+@[a-zA-Z0-9.-]+\.[a-zA-Z]{2,}`. */
  ghost predicate WholeMatch(s: string) {
    exists at, dot :: ShapedAt(s, at, dot)
  }

  /** `re.match('^…$', s)`: without MULTILINE, `$` matches at the end of the text and also
      just before a newline that ends it. */
  ghost predicate PatternMatches(s: string) {
    WholeMatch(s) || (|s| >= 1 && s[|s| - 1] == '\n' && WholeMatch(s[..|s| - 1]))
  }

  /** Index of the first `c` at or after `from`, or `|s|` when there is none. */
  function FirstIndex(s: string, c: char, from: nat): (r: nat)
    requires from <= |s|
    ensures from <= r <= |s|
    ensures r < |s| ==> s[r] == c
    ensures forall k :: from <= k < r ==> s[k] != c
    decreases |s| - from
  {
    if from == |s| || s[from] == c then from else FirstIndex(s, c, from + 1)
  }

  /** Index of the last `c` in `s`, or -1 when there is none. */
  function LastIndex(s: string, c: char): (r: int)
    ensures -1 <= r < |s|
    ensures r >= 0 ==> s[r] == c
    ensures forall k :: r < k < |s| ==> s[k] != c
  {
    if s == [] then -1 else if s[|s| - 1] == c then |s| - 1 else LastIndex(s[..|s| - 1], c)
  }

  /** The pattern checked against the whole of `s` by splitting at the first `@` and the last dot. */
  predicate SplitsAsAddress(s: string) {
    var at, dot := FirstIndex(s, '@', 0), LastIndex(s, '.');
    && 1 <= at && at + 2 <= dot && dot + 3 <= |s|
    && (forall k :: 0 <= k < at ==> IsLocalChar(s[k]))
    && (forall k :: at < k < dot ==> IsDomainChar(s[k]))
    && (forall k :: dot < k < |s| ==> IsAsciiLetter(s[k]))
  }

  /** The first-`@`/last-dot split finds a match whenever there is one: no local character is an
      `@`, and no letter after the separating dot is a dot. */
  lemma SplitsAsAddressIff(s: string)
    ensures SplitsAsAddress(s) <==> WholeMatch(s)
  {
    var at, dot := FirstIndex(s, '@', 0), LastIndex(s, '.');
    if SplitsAsAddress(s) {
      assert ShapedAt(s, at, dot);
    }
    if WholeMatch(s) {
      var at', dot' :| ShapedAt(s, at', dot');
      assert at == at';
      assert dot == dot';
    }
  }

  /** `_is_valid_email`. */
  function IsValidEmail(s: string): (r: bool)
    ensures r <==> PatternMatches(s)
  {
    SplitsAsAddressIff(s);
    if |s| >= 1 && s[|s| - 1] == '\n' then
      SplitsAsAddressIff(s[..|s| - 1]);
      SplitsAsAddress(s) || SplitsAsAddress(s[..|s| - 1])
    else
      SplitsAsAddress(s)
  }

  /** An address with the pattern's shape is accepted. */
  lemma ShapedValid(s: string, at: int, dot: int)
    requires ShapedAt(s, at, dot)
    ensures IsValidEmail(s)
  {
  }

  /** The sender address of the message test is accepted. */
  lemma TestSenderValid()
    ensures IsValidEmail("sender@example.com")
  {
    ShapedValid("sender@example.com", 6, 14);
  }

  /** The receiver address of the message test is accepted. */
  lemma TestReceiverValid()
    ensures IsValidEmail("receiver@example.com")
  {
    ShapedValid("receiver@example.com", 8, 16);
  }

  /** `$` lets a final newline through, and the domain part may be nothing but a dot. */
  lemma OddAddressesValid()
    ensures IsValidEmail("a@b.co\n")
    ensures IsValidEmail("a@..co")
  {
    assert "a@b.co\n"[..6] == "a@b.co";
    assert ShapedAt("a@b.co", 1, 3);
    assert ShapedAt("a@..co", 1, 3);
  }

  /** A one-letter ending, an empty part before `@` or before the dot, and a second `@` are refused. */
  lemma InvalidAddresses()
    ensures !IsValidEmail("a@b.c")
    ensures !IsValidEmail("@b.co")
    ensures !IsValidEmail("a@.co")
    ensures !IsValidEmail("a@b@c.co")
  {
    var s1, s2, s3, s4 := "a@b.c", "@b.co", "a@.co", "a@b@c.co";
    assert s1[1] == '@' && s1[3] == '.' && s1[4] != '.';
    assert FirstIndex(s1, '@', 0) == 1 && LastIndex(s1, '.') == 3;
    SplitsAsAddressIff(s1);
    assert s2[0] == '@';
    assert FirstIndex(s2, '@', 0) == 0;
    SplitsAsAddressIff(s2);
    assert s3[1] == '@' && s3[2] == '.' && s3[3] != '.' && s3[4] != '.';
    assert FirstIndex(s3, '@', 0) == 1 && LastIndex(s3, '.') == 2;
    SplitsAsAddressIff(s3);
    assert s4[1] == '@' && s4[5] == '.' && s4[6] != '.' && s4[7] != '.';
    assert FirstIndex(s4, '@', 0) == 1 && LastIndex(s4, '.') == 5;
    assert !IsDomainChar(s4[3]);
    SplitsAsAddressIff(s4);
  }

  // ================================================================ _check

  /** The fields of a `Message` that `_check` reads. */
  datatype Draft = Draft(sender: string, receiver: string, subject: string, content: string)

  /** The `ValueError`s `_check` raises. */
  datatype CheckError =
    | InvalidSender(address: string)
    | InvalidReceiver(address: string)
    | EmptySubject
    | EmptyContent

  /** `_check`: `None` when the message may be built, otherwise the first failing check, in
      the order sender, receiver, subject, content. */
  function Check(m: Draft): (r: Option<CheckError>)
    ensures r == None <==>
      PatternMatches(m.sender) && PatternMatches(m.receiver) && m.subject != "" && m.content != ""
    ensures r == Some(InvalidSender(m.sender)) <==> !PatternMatches(m.sender)
    ensures r == Some(InvalidReceiver(m.receiver)) <==>
      PatternMatches(m.sender) && !PatternMatches(m.receiver)
    ensures r == Some(EmptySubject) <==>
      PatternMatches(m.sender) && PatternMatches(m.receiver) && m.subject == ""
    ensures r == Some(EmptyContent) <==>
      PatternMatches(m.sender) && PatternMatches(m.receiver) && m.subject != "" && m.content == ""
  {
    if !IsValidEmail(m.sender) then Some(InvalidSender(m.sender))
    else if !IsValidEmail(m.receiver) then Some(InvalidReceiver(m.receiver))
    else if m.subject == "" then Some(EmptySubject)
    else if m.content == "" then Some(EmptyContent)
    else None
  }

  // ================================================================ _parse_template

  /** `\w`, for ASCII text. */
  predicate IsWordChar(c: char) {
    IsAsciiLetter(c) || IsAsciiDigit(c) || c == '_'
  }

  /** End of the whitespace run that starts at `i` (what a greedy `\s*` consumes). */
  function SkipSpace(text: string, i: nat): (j: nat)
    requires i <= |text|
    ensures i <= j <= |text|
    ensures forall k :: i <= k < j ==> IsSpace(text[k])
    ensures j == |text| || !IsSpace(text[j])
    decreases |text| - i
  {
    if i < |text| && IsSpace(text[i]) then SkipSpace(text, i + 1) else i
  }

  /** End of the run of word characters that starts at `i` (what a greedy `\w+` consumes). */
  function SkipWord(text: string, i: nat): (j: nat)
    requires i <= |text|
    ensures i <= j <= |text|
    ensures forall k :: i <= k < j ==> IsWordChar(text[k])
    ensures j == |text| || !IsWordChar(text[j])
    decreases |text| - i
  {
    if i < |text| && IsWordChar(text[i]) then SkipWord(text, i + 1) else i
  }

  /** A section marker `\[\w+\]` starts at `b`. Since `]` is not a word character, backing off the
      greedy `\w+` never helps, so the longest word run must be followed by `]`. */
  predicate MarkerAt(text: string, b: nat) {
    b < |text| && text[b] == '[' &&
    var e := SkipWord(text, b + 1);
    b + 1 < e < |text| && text[e] == ']'
  }

  /** The lookahead `(?=\[\w+\]|$)` succeeds at `b`. */
  predicate BoundaryAt(text: string, b: nat)
    requires b <= |text|
  {
    b == |text| || (b + 1 == |text| && text[b] == '\n') || MarkerAt(text, b)
  }

  /** `\s*` followed by the lookahead, the whitespace run from `lo` ending at `hi`: the engine tries
      `hi` first and gives back one character at a time down to `lo`. */
  function Backtrack(text: string, lo: nat, hi: nat): (r: Option<nat>)
    requires lo <= hi <= |text|
    ensures r.Some? ==> lo <= r.value <= hi && BoundaryAt(text, r.value)
    ensures r.None? ==> forall b :: lo <= b <= hi ==> !BoundaryAt(text, b)
    decreases hi - lo
  {
    if BoundaryAt(text, hi) then Some(hi)
    else if hi == lo then None
    else Backtrack(text, lo, hi - 1)
  }

  /** The lazy content group `(.*?)` from `c`: the shortest content after which `\s*` and the
      lookahead succeed. Returns the end of the content and the end of the whole match. It
      always succeeds, at the latest at the end of the text. */
  function LazyContent(text: string, c: nat): (r: (nat, nat))
    requires c <= |text|
    ensures c <= r.0 <= r.1 <= |text|
    decreases |text| - c
  {
    match Backtrack(text, c, SkipSpace(text, c))
    case Some(b) => (c, b)
    case None => LazyContent(text, c + 1)
  }

  /** Where one match of the section pattern lies: `[` at `open`, the title up to `]` at `close`,
      the content from `start` to `stop`, the match ending at `end`. */
  datatype Span = Span(open: nat, close: nat, start: nat, stop: nat, end: nat)

  /** One attempt of `\[(.*?)\]\s*(.*?)\s*(?=\[\w+\]|$)` at `p`. The lazy title stops at the first
      `]`; after that the rest of the pattern cannot fail, so the attempt fails exactly when `p`
      does not hold `[` or no `]` follows it. */
  function MatchAt(text: string, p: nat): (r: Option<Span>)
    requires p < |text|
    ensures r.None? <==> text[p] != '[' || forall k :: p < k < |text| ==> text[k] != ']'
    ensures r.Some? ==>
      && r.value.open == p && p < r.value.close < |text| && text[r.value.close] == ']'
      && (forall k :: p < k < r.value.close ==> text[k] != ']')
      && r.value.close < r.value.start <= r.value.stop <= r.value.end <= |text|
      && (forall k :: r.value.close < k < r.value.start ==> IsSpace(text[k]))
  {
    if text[p] != '[' then None
    else
      var q := FirstIndex(text, ']', p + 1);
      if q == |text| then None
      else
        var a := SkipSpace(text, q + 1);
        var (c, b) := LazyContent(text, a);
        Some(Span(p, q, a, c, b))
  }

  /** The two groups of one match. */
  datatype Section = Section(title: string, content: string)

  /** `re.findall(pattern, text, re.DOTALL)` from `p`: the groups of the successive
      non-overlapping matches, scanning forward one character after a failed attempt. */
  function FindAll(text: string, p: nat): (r: seq<Section>)
    requires p <= |text|
    decreases |text| - p
  {
    if p == |text| then []
    else
      var r := MatchAt(text, p);
      if r.Some? then [Section(text[r.value.open + 1..r.value.close], text[r.value.start..r.value.stop])] + FindAll(text, r.value.end)
      else FindAll(text, p + 1)
  }

  /** A lazy content search that ends at `stop` tried every earlier end and failed there. */
  lemma {:induction false} LazyContentFirst(text: string, c: nat, x: nat)
    requires c <= |text|
    requires c <= x < LazyContent(text, c).0
    ensures Backtrack(text, x, SkipSpace(text, x)).None?
    decreases |text| - c
  {
    if x > c {
      LazyContentFirst(text, c + 1, x);
    }
  }

  /** The content of a match has no whitespace at either end; only whitespace lies between it and
      the end of the match; the match ends at a `[word]` marker or at the end of the text; and no
      marker starts inside the content, so a section runs up to the next marker. */
  lemma MatchAtContent(text: string, p: nat, m: Span)
    requires p < |text| && MatchAt(text, p) == Some(m)
    ensures forall k :: m.stop <= k < m.end ==> IsSpace(text[k])
    ensures m.start < m.stop ==> !IsSpace(text[m.start]) && !IsSpace(text[m.stop - 1])
    ensures BoundaryAt(text, m.end)
    ensures forall k :: m.start <= k < m.stop ==> !MarkerAt(text, k)
  {
    var a := SkipSpace(text, FirstIndex(text, ']', p + 1) + 1);
    assert m.start == a && (m.stop, m.end) == LazyContent(text, a);
    LazyContentShape(text, a);
  }

  /** The content found by the lazy search from `a` contains no marker, does not end in
      whitespace, and is followed by whitespace only up to a boundary. */
  lemma LazyContentShape(text: string, a: nat)
    requires a <= |text|
    ensures var (stop, end) := LazyContent(text, a);
      && (forall k :: stop <= k < end ==> IsSpace(text[k]))
      && (a < stop ==> !IsSpace(text[stop - 1]))
      && BoundaryAt(text, end)
      && (forall k :: a <= k < stop ==> !MarkerAt(text, k))
  {
    var (stop, end) := LazyContent(text, a);
    LazyContentEnd(text, a);
    forall k | a <= k < stop
      ensures !MarkerAt(text, k)
    {
      LazyContentFirst(text, a, k);
    }
    if a < stop {
      LazyContentFirst(text, a, stop - 1);
    }
  }

  /** The lazy content search ends where its `\s*` and lookahead succeeded. */
  lemma {:induction false} LazyContentEnd(text: string, c: nat)
    requires c <= |text|
    ensures var (stop, end) := LazyContent(text, c);
      && stop <= end <= SkipSpace(text, stop)
      && Backtrack(text, stop, SkipSpace(text, stop)) == Some(end)
    decreases |text| - c
  {
    if Backtrack(text, c, SkipSpace(text, c)).None? {
      LazyContentEnd(text, c + 1);
    }
  }

  // ---------------------------------------------------------------- templates that parse back

  /** Every character of `s` is whitespace. */
  predicate AllSpace(s: string) {
    forall k :: 0 <= k < |s| ==> IsSpace(s[k])
  }

  /** `s` is a section title the marker lookahead accepts: one or more word characters. */
  predicate IsWord(s: string) {
    |s| >= 1 && forall k :: 0 <= k < |s| ==> IsWordChar(s[k])
  }

  /** One section as written in a template file: `[title]`, whitespace, the content, whitespace. */
  datatype Block = Block(title: string, gap: string, content: string, trail: string)

  /** A block the parser reads back as written: a word title, whitespace around a content that
      neither starts nor ends with whitespace and holds no `[`. */
  predicate WellFormed(bl: Block) {
    && IsWord(bl.title) && AllSpace(bl.gap) && AllSpace(bl.trail)
    && bl.content != [] && !IsSpace(bl.content[0]) && !IsSpace(bl.content[|bl.content| - 1])
    && '[' !in bl.content
  }

  /** The text of one block. */
  function BlockText(bl: Block): string {
    "[" + bl.title + "]" + bl.gap + bl.content + bl.trail
  }

  /** The text of a template made of `blocks`, one after the other. */
  function Render(blocks: seq<Block>): string {
    if blocks == [] then [] else BlockText(blocks[0]) + Render(blocks[1..])
  }

  /** The title and content of each block. */
  function Written(blocks: seq<Block>): (r: seq<Section>)
    ensures |r| == |blocks|
    ensures forall i :: 0 <= i < |r| ==> r[i] == Section(blocks[i].title, blocks[i].content)
  {
    if blocks == [] then [] else [Section(blocks[0].title, blocks[0].content)] + Written(blocks[1..])
  }

  /** Sufficient conditions for one attempt of the section pattern at `p` to match with the
      given span. */
  lemma SectionMatch(text: string, p: nat, q: nat, a: nat, c: nat, b: nat)
    requires p < q < a <= c <= b <= |text| && a < c
    requires text[p] == '[' && text[q] == ']' && ']' !in text[p + 1..q]
    requires AllSpace(text[q + 1..a])
    requires !IsSpace(text[a]) && !IsSpace(text[c - 1]) && '[' !in text[a..c]
    requires AllSpace(text[c..b])
    requires b == |text| || !IsSpace(text[b])
    requires BoundaryAt(text, b)
    ensures MatchAt(text, p) == Some(Span(p, q, a, c, b))
  {
    forall k | p < k < q
      ensures text[k] != ']'
    {
      assert text[k] == text[p + 1..q][k - p - 1];
    }
    forall k | q < k < a
      ensures IsSpace(text[k])
    {
      assert text[k] == text[q + 1..a][k - q - 1];
    }
    forall k | a <= k < c
      ensures text[k] != '['
    {
      assert text[k] == text[a..c][k - a];
    }
    forall k | c <= k < b
      ensures IsSpace(text[k])
    {
      assert text[k] == text[c..b][k - c];
    }
    assert FirstIndex(text, ']', p + 1) == q;
    assert SkipSpace(text, q + 1) == a;
    LazyContentAt(text, a, c, b);
  }

  /** The lazy content search from `x` stops at `c` when no `[` lies before `c`, `c` follows a
      non-space, and only whitespace lies between `c` and a boundary at `b`. */
  lemma {:induction false} LazyContentAt(text: string, x: nat, c: nat, b: nat)
    requires x <= c <= b <= |text|
    requires forall k :: x <= k < c ==> text[k] != '['
    requires x < c ==> !IsSpace(text[c - 1])
    requires forall k :: c <= k < b ==> IsSpace(text[k])
    requires b == |text| || !IsSpace(text[b])
    requires BoundaryAt(text, b)
    ensures LazyContent(text, x) == (c, b)
    decreases c - x
  {
    if x < c {
      var y := SkipSpace(text, x);
      assert y < c;
      forall z | x <= z <= y
        ensures !BoundaryAt(text, z)
      {
        assert z + 1 == |text| ==> z == c - 1;
      }
      assert Backtrack(text, x, y).None?;
      LazyContentAt(text, x + 1, c, b);
    } else {
      assert SkipSpace(text, c) == b;
    }
  }

  /** Where the title of a block lies in its text. */
  lemma BlockHead(bl: Block)
    ensures var t, q := BlockText(bl), 1 + |bl.title|;
      && |t| == q + 1 + |bl.gap| + |bl.content| + |bl.trail|
      && t[0] == '[' && t[1..q] == bl.title && t[q] == ']'
  {
  }

  /** Where the content of a block lies in its text. */
  lemma BlockBody(bl: Block)
    ensures var t, a := BlockText(bl), 2 + |bl.title| + |bl.gap|;
      var c := a + |bl.content|;
      && |t| == c + |bl.trail|
      && t[a - |bl.gap|..a] == bl.gap && t[a..c] == bl.content && t[c..] == bl.trail
  {
    var t := BlockText(bl);
    var a := 2 + |bl.title| + |bl.gap|;
    assert t == ("[" + bl.title + "]") + bl.gap + bl.content + bl.trail;
  }

  /** A slice of a text that holds `t` from `p` is the same slice of `t`. */
  lemma SliceOfSlice(text: string, p: nat, t: string, i: nat, j: nat)
    requires p + |t| <= |text| && text[p..p + |t|] == t && i <= j <= |t|
    ensures text[p + i..p + j] == t[i..j]
  {
    forall k | 0 <= k < j - i
      ensures text[p + i..p + j][k] == t[i..j][k]
    {
      assert text[p + i + k] == text[p..p + |t|][i + k];
    }
  }

  /** `text` holds the text of `bl` from `p`. */
  predicate HoldsAt(text: string, p: nat, bl: Block) {
    p + |BlockText(bl)| <= |text| && text[p..p + |BlockText(bl)|] == BlockText(bl)
  }

  /** A well-formed block starts with a marker. */
  lemma BlockMarker(text: string, b: nat, bl: Block)
    requires WellFormed(bl) && HoldsAt(text, b, bl)
    ensures MarkerAt(text, b) && !IsSpace(text[b])
  {
    var t, e := BlockText(bl), b + 1 + |bl.title|;
    BlockHead(bl);
    assert text[b] == t[0] == '[';
    forall k | b + 1 <= k < e
      ensures IsWordChar(text[k])
    {
      assert text[k] == t[k - b] == t[1..e - b][k - b - 1];
    }
    assert text[e] == t[e - b] == ']';
    assert SkipWord(text, b + 1) == e;
  }

  /** Where the title of a block lies in a text that holds it. */
  lemma HeadAt(text: string, p: nat, bl: Block)
    requires HoldsAt(text, p, bl)
    ensures var q := p + 1 + |bl.title|;
      text[p] == '[' && text[p + 1..q] == bl.title && text[q] == ']'
  {
    var t, q := BlockText(bl), p + 1 + |bl.title|;
    BlockHead(bl);
    assert text[p] == t[0] && text[q] == t[q - p];
    SliceOfSlice(text, p, t, 1, q - p);
  }

  /** Where the content of a block lies in a text that holds it. */
  lemma BodyAt(text: string, p: nat, bl: Block)
    requires HoldsAt(text, p, bl)
    ensures var a := p + 2 + |bl.title| + |bl.gap|;
      var c := a + |bl.content|;
      && text[a - |bl.gap|..a] == bl.gap && text[a..c] == bl.content
      && text[c..p + |BlockText(bl)|] == bl.trail
  {
    var t := BlockText(bl);
    var a := 2 + |bl.title| + |bl.gap|;
    var c := a + |bl.content|;
    BlockBody(bl);
    SliceOfSlice(text, p, t, a - |bl.gap|, a);
    SliceOfSlice(text, p, t, a, c);
    SliceOfSlice(text, p, t, c, |t|);
    assert t[c..|t|] == t[c..];
  }

  /** A well-formed block followed by the end of the text or by a marker is matched whole, and the
      search goes on after it. */
  lemma BlockMatches(text: string, p: nat, bl: Block, next: nat)
    requires WellFormed(bl) && HoldsAt(text, p, bl) && next == p + |BlockText(bl)|
    requires next == |text| || (MarkerAt(text, next) && !IsSpace(text[next]))
    ensures FindAll(text, p) == [Section(bl.title, bl.content)] + FindAll(text, next)
  {
    var m := BlockMatchAt(text, p, bl, next);
    FindAllSpan(text, p, m, bl.title, bl.content, next);
  }

  /** A well-formed block followed by the end of the text or by a marker is matched at its start,
      with its title and content as the groups. */
  lemma BlockMatchAt(text: string, p: nat, bl: Block, b: nat) returns (m: Span)
    requires WellFormed(bl) && HoldsAt(text, p, bl) && b == p + |BlockText(bl)|
    requires b == |text| || (MarkerAt(text, b) && !IsSpace(text[b]))
    ensures p < |text| && MatchAt(text, p) == Some(m) && m.end == b
    ensures text[m.open + 1..m.close] == bl.title && text[m.start..m.stop] == bl.content
  {
    var q := p + 1 + |bl.title|;
    var a := q + 1 + |bl.gap|;
    var c := a + |bl.content|;
    BlockLayout(text, p, bl, q, a, c, b);
    assert text[a] == bl.content[0] && text[c - 1] == bl.content[|bl.content| - 1];
    assert ']' !in bl.title;
    SectionMatch(text, p, q, a, c, b);
    m := Span(p, q, a, c, b);
  }

  /** Where the parts of a block lie in a text that holds it. */
  lemma BlockLayout(text: string, p: nat, bl: Block, q: nat, a: nat, c: nat, b: nat)
    requires HoldsAt(text, p, bl)
    requires q == p + 1 + |bl.title| && a == q + 1 + |bl.gap| && c == a + |bl.content| && b == p + |BlockText(bl)|
    ensures p < q < a <= c <= b <= |text|
    ensures text[p] == '[' && text[q] == ']' && text[p + 1..q] == bl.title
    ensures text[q + 1..a] == bl.gap && text[a..c] == bl.content && text[c..b] == bl.trail
  {
    HeadAt(text, p, bl);
    BodyAt(text, p, bl);
  }

  /** Where an attempt matches with the given groups, the search records them and goes on after
      the match. */
  lemma FindAllSpan(text: string, p: nat, m: Span, title: string, content: string, e: nat)
    requires p < |text| && MatchAt(text, p) == Some(m) && m.end == e
    requires text[m.open + 1..m.close] == title && text[m.start..m.stop] == content
    ensures e <= |text| && FindAll(text, p) == [Section(title, content)] + FindAll(text, e)
  {
    FindAllAt(text, p);
    var found := MatchAt(text, p).value;
    assert found == m;
    calc {
      FindAll(text, p);
    ==
      [Section(text[found.open + 1..found.close], text[found.start..found.stop])] + FindAll(text, found.end);
    == { assert text[found.open + 1..found.close] == title && text[found.start..found.stop] == content; }
      [Section(title, content)] + FindAll(text, e);
    }
  }

  /** Each match `findall` records consumes at least the two characters of its brackets. */
  lemma {:induction false} FindAllLength(text: string, p: nat)
    requires p <= |text|
    ensures 2 * |FindAll(text, p)| <= |text| - p
    decreases |text| - p
  {
    if p < |text| {
      var next := FindAllHead(text, p);
      FindAllLength(text, next);
    }
  }

  /** One attempt of the search: either it fails and the search moves on by one character, or it
      records one match, whose title holds no `]`, and moves on past at least its two brackets. */
  lemma FindAllHead(text: string, p: nat) returns (next: nat)
    requires p < |text|
    ensures p < next <= |text|
    ensures || FindAll(text, p) == FindAll(text, next)
            || (&& p + 2 <= next && FindAll(text, p) != []
                && ']' !in FindAll(text, p)[0].title && FindAll(text, p)[1..] == FindAll(text, next))
  {
    var r := MatchAt(text, p);
    if r.Some? {
      var m := r.value;
      next := m.end;
      FindAllAt(text, p);
      NoBracketBetween(text, m.open, m.close);
    } else {
      next := p + 1;
      FindAllNone(text, p);
    }
  }

  /** A slice strictly between `open` and `close` with no `]` at any of its positions. */
  lemma NoBracketBetween(text: string, open: nat, close: nat)
    requires open < close <= |text|
    requires forall k :: open < k < close ==> text[k] != ']'
    ensures ']' !in text[open + 1..close]
  {
    var t := text[open + 1..close];
    forall i | 0 <= i < |t| ensures t[i] != ']' {
      assert t[i] == text[open + 1 + i];
    }
  }

  /** No title `findall` returns holds `]`: the lazy title stops at the first one. */
  lemma {:induction false} FindAllTitles(text: string, p: nat)
    requires p <= |text|
    ensures forall i :: 0 <= i < |FindAll(text, p)| ==> ']' !in FindAll(text, p)[i].title
    decreases |text| - p
  {
    if p < |text| {
      var next := FindAllHead(text, p);
      FindAllTitles(text, next);
      var all, rest := FindAll(text, p), FindAll(text, next);
      if all != rest {
        forall i | 0 <= i < |all| ensures ']' !in all[i].title {
          if i > 0 {
            assert all[i] == rest[i - 1];
          }
        }
      }
    }
  }

  /** Where an attempt fails, the search goes on at the next character. */
  lemma FindAllNone(text: string, p: nat)
    requires p < |text| && MatchAt(text, p).None?
    ensures FindAll(text, p) == FindAll(text, p + 1)
  {
  }

  /** Where an attempt matches, the search records its groups and goes on after the match. */
  lemma FindAllAt(text: string, p: nat)
    requires p < |text| && MatchAt(text, p).Some?
    ensures var m := MatchAt(text, p).value;
      FindAll(text, p) == [Section(text[m.open + 1..m.close], text[m.start..m.stop])] + FindAll(text, m.end)
  {
  }

  /** A text whose suffix is `u + v` holds `u` and then `v`. */
  lemma SuffixSplit(text: string, p: nat, u: string, v: string)
    requires p <= |text| && text[p..] == u + v
    ensures p + |u| <= |text| && text[p..p + |u|] == u && text[p + |u|..] == v
  {
    assert text[p..p + |u|] == text[p..][..|u|];
    assert text[p + |u|..] == text[p..][|u|..];
  }

  /** `text` holds the text of `blocks` one after the other from `p` to its end. */
  predicate Renders(text: string, p: nat, blocks: seq<Block>)
    decreases |blocks|
  {
    if blocks == [] then p == |text|
    else HoldsAt(text, p, blocks[0]) && Renders(text, p + |BlockText(blocks[0])|, blocks[1..])
  }

  /** A text whose suffix from `p` is the rendering of `blocks` holds them from `p`. */
  lemma {:induction false} RenderHolds(text: string, p: nat, blocks: seq<Block>)
    requires p <= |text| && text[p..] == Render(blocks)
    ensures Renders(text, p, blocks)
    decreases |blocks|
  {
    if blocks == [] {
      assert |text[p..]| == 0;
    } else {
      SuffixSplit(text, p, BlockText(blocks[0]), Render(blocks[1..]));
      RenderHolds(text, p + |BlockText(blocks[0])|, blocks[1..]);
    }
  }

  /** Parsing resumes at the start of each block and reads the rest of the template back. */
  lemma {:induction false} FindAllRender(text: string, p: nat, blocks: seq<Block>)
    requires Renders(text, p, blocks)
    requires forall i :: 0 <= i < |blocks| ==> WellFormed(blocks[i])
    ensures FindAll(text, p) == Written(blocks)
    decreases |blocks|
  {
    if blocks != [] {
      FindAllStep(text, p, blocks);
      FindAllRender(text, p + |BlockText(blocks[0])|, blocks[1..]);
    }
  }

  /** The first block of a template is matched whole, and the search goes on at the next one. */
  lemma FindAllStep(text: string, p: nat, blocks: seq<Block>)
    requires blocks != [] && Renders(text, p, blocks)
    requires forall i :: 0 <= i < |blocks| ==> WellFormed(blocks[i])
    ensures FindAll(text, p) ==
      [Section(blocks[0].title, blocks[0].content)] + FindAll(text, p + |BlockText(blocks[0])|)
  {
    var next := p + |BlockText(blocks[0])|;
    assert HoldsAt(text, p, blocks[0]) && Renders(text, next, blocks[1..]);
    assert next == |text| || (MarkerAt(text, next) && !IsSpace(text[next])) by {
      if blocks[1..] != [] {
        assert HoldsAt(text, next, blocks[1..][0]);
        BlockMarker(text, next, blocks[1]);
      }
    }
    BlockMatches(text, p, blocks[0], next);
  }


  /** Reading back a template written as well-formed blocks gives each block's title and content,
      in order. */
  lemma RenderParses(blocks: seq<Block>)
    requires forall i :: 0 <= i < |blocks| ==> WellFormed(blocks[i])
    ensures FindAll(Render(blocks), 0) == Written(blocks)
  {
    RenderHolds(Render(blocks), 0, blocks);
    FindAllRender(Render(blocks), 0, blocks);
  }

  // ---------------------------------------------------------------- building the result

  /** The stripped title and the stripped content of each match, in order. */
  function Entries(sections: seq<Section>): (r: seq<(string, string)>)
    ensures |r| == |sections|
    ensures forall i :: 0 <= i < |r| ==> r[i] == (Strip(sections[i].title), Strip(sections[i].content))
  {
    seq(|sections|, i requires 0 <= i < |sections| => (Strip(sections[i].title), Strip(sections[i].content)))
  }

  /** Index of the last entry before `n` whose title is `key`, or -1. */
  function LastTitled(entries: seq<(string, string)>, key: string, n: nat): (r: int)
    requires n <= |entries|
    ensures -1 <= r < n
    ensures r >= 0 ==> entries[r].0 == key
    ensures forall j :: r < j < n ==> entries[j].0 != key
  {
    if n == 0 then -1
    else if entries[n - 1].0 == key then n - 1
    else LastTitled(entries, key, n - 1)
  }

  /** The loop `result[title.strip()] = content.strip()` over the first `n` entries, in order. */
  function Collect(entries: seq<(string, string)>, n: nat): (r: map<string, string>)
    requires n <= |entries|
    ensures r == map[] <==> n == 0
  {
    if n == 0 then map[]
    else
      var r := Collect(entries, n - 1)[entries[n - 1].0 := entries[n - 1].1];
      assert entries[n - 1].0 in r;
      r
  }

  /** The loop adds at most one key per entry. */
  lemma {:induction false} CollectSize(entries: seq<(string, string)>, n: nat)
    requires n <= |entries|
    ensures |Collect(entries, n).Keys| <= n
  {
    if n > 0 {
      var prev := Collect(entries, n - 1);
      CollectSize(entries, n - 1);
      assert Collect(entries, n).Keys == prev.Keys + {entries[n - 1].0};
    }
  }

  /** A title is in the result exactly when some entry carries it, and the last such entry wins. */
  lemma {:induction false} CollectLastWins(entries: seq<(string, string)>, key: string, n: nat)
    requires n <= |entries|
    ensures key in Collect(entries, n) <==> LastTitled(entries, key, n) >= 0
    ensures key in Collect(entries, n) ==> Collect(entries, n)[key] == entries[LastTitled(entries, key, n)].1
  {
    if n > 0 {
      CollectLastWins(entries, key, n - 1);
    }
  }

  /** A value of the dictionary `_parse_template` returns: a stripped string, the attachment
      lines, or `None`. */
  datatype Value = Str(text: string) | Lines(lines: seq<string>) | NoValue

  /** `_parse_template`. Every section title maps to its stripped content; the `ATTACHMENT` key is
      always present, holding the lines of a non-empty attachment section and `None` otherwise. */
  function ParseTemplate(text: string): (r: map<string, Value>)
    ensures var entries := Entries(FindAll(text, 0));
      var found := Collect(entries, |entries|);
      && r.Keys == found.Keys + {AttachmentKey}
      && r[AttachmentKey] == Attachment(found)
      && forall k :: k in found && k != AttachmentKey ==> r[k] == Str(found[k])
  {
    var entries := Entries(FindAll(text, 0));
    Dictionary(Collect(entries, |entries|))
  }

  /** The key of the attachment section. */
  const AttachmentKey := "ATTACHMENT"

  /** The dictionary built from the collected sections. */
  function Dictionary(found: map<string, string>): (r: map<string, Value>)
    ensures r.Keys == found.Keys + {AttachmentKey}
    ensures r[AttachmentKey] == Attachment(found)
    ensures forall k :: k in found && k != AttachmentKey ==> r[k] == Str(found[k])
  {
    var result := map k | k in found.Keys :: Str(found[k]);
    assert result.Keys == found.Keys;
    result[AttachmentKey := Attachment(found)]
  }

  /** The `ATTACHMENT` entry: the section's lines when it is there and non-empty, else `None`. */
  function Attachment(found: map<string, string>): (v: Value)
    ensures v == NoValue <==> AttachmentKey !in found || found[AttachmentKey] == ""
    ensures v.Lines? ==>
      && AttachmentKey in found && |v.lines| >= 1
      && Join(v.lines, '\n') == found[AttachmentKey]
      && forall i :: 0 <= i < |v.lines| ==> '\n' !in v.lines[i]
  {
    if AttachmentKey in found && found[AttachmentKey] != "" then
      JoinSplit(found[AttachmentKey], '\n');
      SplitNoSeparator(found[AttachmentKey], '\n');
      Lines(Split(found[AttachmentKey], '\n'))
    else
      NoValue
  }

  // ---------------------------------------------------------------- templates read back whole

  /** The title and content of each block, as the loop of `_parse_template` sees them. */
  function Pairs(blocks: seq<Block>): (r: seq<(string, string)>)
    ensures |r| == |blocks|
    ensures forall i :: 0 <= i < |r| ==> r[i] == (blocks[i].title, blocks[i].content)
  {
    seq(|blocks|, i requires 0 <= i < |blocks| => (blocks[i].title, blocks[i].content))
  }

  /** The titles and contents of well-formed blocks are already stripped. */
  lemma EntriesWritten(blocks: seq<Block>)
    requires forall i :: 0 <= i < |blocks| ==> WellFormed(blocks[i])
    ensures Entries(Written(blocks)) == Pairs(blocks)
  {
    forall i | 0 <= i < |blocks|
      ensures Entries(Written(blocks))[i] == Pairs(blocks)[i]
    {
      WrittenEntry(blocks, i);
    }
  }

  /** One entry of a well-formed block. */
  lemma WrittenEntry(blocks: seq<Block>, i: nat)
    requires i < |blocks| && WellFormed(blocks[i])
    ensures Entries(Written(blocks))[i] == (blocks[i].title, blocks[i].content)
  {
    var bl := blocks[i];
    assert IsWordChar(bl.title[0]) && IsWordChar(bl.title[|bl.title| - 1]);
    assert !IsSpace(bl.title[0]) && !IsSpace(bl.title[|bl.title| - 1]);
    StripStripped(bl.title);
    StripStripped(bl.content);
    assert Written(blocks)[i] == Section(bl.title, bl.content);
    assert Entries(Written(blocks))[i] == (Strip(bl.title), Strip(bl.content));
  }

  /** The dictionary built from the sections of well-formed blocks. */
  function BlocksDictionary(blocks: seq<Block>): map<string, Value> {
    Dictionary(Collect(Pairs(blocks), |blocks|))
  }

  /** The dictionary of blocks has the `ATTACHMENT` key and exactly their titles. */
  lemma DictionaryKeys(blocks: seq<Block>, key: string)
    ensures key in BlocksDictionary(blocks) <==>
      key == AttachmentKey || exists i :: 0 <= i < |blocks| && blocks[i].title == key
  {
    var pairs := Pairs(blocks);
    CollectLastWins(pairs, key, |blocks|);
    if exists i :: 0 <= i < |blocks| && blocks[i].title == key {
      var i :| 0 <= i < |blocks| && blocks[i].title == key;
      assert pairs[i].0 == key;
    }
  }

  /** In the dictionary of blocks, the last block with a given title gives that key its value: the
      content itself, or for `ATTACHMENT` the lines of a non-empty content. */
  lemma DictionaryValue(blocks: seq<Block>, i: nat)
    requires i < |blocks| && forall j :: i < j < |blocks| ==> blocks[j].title != blocks[i].title
    requires blocks[i].content != ""
    ensures var r, bl := BlocksDictionary(blocks), blocks[i];
      && bl.title in r
      && r[bl.title] == if bl.title == AttachmentKey then Lines(Split(bl.content, '\n')) else Str(bl.content)
  {
    var pairs := Pairs(blocks);
    CollectLastWins(pairs, blocks[i].title, |blocks|);
    assert LastTitled(pairs, blocks[i].title, |blocks|) == i;
  }

  /** A text whose matches are the sections of `blocks` parses to their dictionary. */
  lemma TemplateDictionary(text: string, blocks: seq<Block>)
    requires FindAll(text, 0) == Written(blocks)
    requires forall i :: 0 <= i < |blocks| ==> WellFormed(blocks[i])
    ensures ParseTemplate(text) == BlocksDictionary(blocks)
  {
    var entries := Entries(FindAll(text, 0));
    EntriesWritten(blocks);
    assert entries == Pairs(blocks);
    assert ParseTemplate(text) == Dictionary(Collect(entries, |entries|));
  }

  /** Parsing a template written as well-formed blocks yields the `ATTACHMENT` key and exactly the
      titles of the blocks. */
  lemma RenderedKeys(blocks: seq<Block>, key: string)
    requires forall i :: 0 <= i < |blocks| ==> WellFormed(blocks[i])
    ensures key in ParseTemplate(Render(blocks)) <==>
      key == AttachmentKey || exists i :: 0 <= i < |blocks| && blocks[i].title == key
  {
    RenderParses(blocks);
    TemplateDictionary(Render(blocks), blocks);
    DictionaryKeys(blocks, key);
  }

  /** In a template written as well-formed blocks, the last block with a given title gives that
      key its value. */
  lemma RenderedValue(blocks: seq<Block>, i: nat)
    requires forall j :: 0 <= j < |blocks| ==> WellFormed(blocks[j])
    requires i < |blocks| && forall j :: i < j < |blocks| ==> blocks[j].title != blocks[i].title
    ensures var r, bl := ParseTemplate(Render(blocks)), blocks[i];
      && bl.title in r
      && r[bl.title] == if bl.title == AttachmentKey then Lines(Split(bl.content, '\n')) else Str(bl.content)
  {
    RenderParses(blocks);
    TemplateDictionary(Render(blocks), blocks);
    DictionaryValue(blocks, i);
  }

  /** A template written as blocks none of which is titled `ATTACHMENT` parses with `None` under
      that key. */
  lemma RenderedNoAttachment(blocks: seq<Block>)
    requires forall i :: 0 <= i < |blocks| ==> WellFormed(blocks[i])
    requires forall i :: 0 <= i < |blocks| ==> blocks[i].title != AttachmentKey
    ensures ParseTemplate(Render(blocks))[AttachmentKey] == NoValue
  {
    RenderParses(blocks);
    TemplateDictionary(Render(blocks), blocks);
    CollectLastWins(Pairs(blocks), AttachmentKey, |blocks|);
  }

  /** A template written as well-formed blocks parses to the dictionary of the blocks. */
  lemma RenderedDictionary(blocks: seq<Block>)
    requires forall i :: 0 <= i < |blocks| ==> WellFormed(blocks[i])
    ensures ParseTemplate(Render(blocks)) == BlocksDictionary(blocks)
  {
    RenderParses(blocks);
    TemplateDictionary(Render(blocks), blocks);
  }

  /** The titles of the blocks. */
  function Titles(blocks: seq<Block>): set<string> {
    if blocks == [] then {} else {blocks[0].title} + Titles(blocks[1..])
  }

  /** A title is among the titles exactly when some block carries it. */
  lemma {:induction false} TitlesIff(blocks: seq<Block>, key: string)
    ensures key in Titles(blocks) <==> exists i :: 0 <= i < |blocks| && blocks[i].title == key
    decreases |blocks|
  {
    if blocks != [] {
      TitlesIff(blocks[1..], key);
      if exists i :: 0 <= i < |blocks[1..]| && blocks[1..][i].title == key {
        var i :| 0 <= i < |blocks[1..]| && blocks[1..][i].title == key;
        assert blocks[i + 1].title == key;
      }
      if exists i :: 0 <= i < |blocks| && blocks[i].title == key {
        var i :| 0 <= i < |blocks| && blocks[i].title == key;
        assert i == 0 || blocks[1..][i - 1].title == key;
      }
    }
  }

  /** The keys of the dictionary of blocks are their titles and `ATTACHMENT`. */
  lemma DictionaryKeySet(blocks: seq<Block>)
    ensures BlocksDictionary(blocks).Keys == Titles(blocks) + {AttachmentKey}
  {
    forall key
      ensures key in BlocksDictionary(blocks) <==> key in Titles(blocks) + {AttachmentKey}
    {
      DictionaryKeys(blocks, key);
      TitlesIff(blocks, key);
    }
  }

  /** The dictionary of a subject, a content and a one-line attachment section. */
  lemma SubjectContentAttachment(subject: string, content: string, path: string)
    requires subject != "" && content != "" && path != "" && '\n' !in path
    ensures BlocksDictionary([Block("SUBJECT", "\n", subject, "\n\n"), Block("CONTENT", "\n", content, "\n\n"),
                              Block(AttachmentKey, "\n", path, "")])
      == map["SUBJECT" := Str(subject), "CONTENT" := Str(content), AttachmentKey := Lines([path])]
  {
    var blocks := [Block("SUBJECT", "\n", subject, "\n\n"), Block("CONTENT", "\n", content, "\n\n"),
                   Block(AttachmentKey, "\n", path, "")];
    DictionaryValue(blocks, 0);
    DictionaryValue(blocks, 1);
    DictionaryValue(blocks, 2);
    SplitJoin([path], '\n');
    assert Join([path], '\n') == path;
    DictionaryKeySet(blocks);
    assert blocks[1..][1..][1..] == [];
    assert Titles(blocks[1..][1..]) == {AttachmentKey};
    assert Titles(blocks[1..]) == {"CONTENT", AttachmentKey};
    assert Titles(blocks) == {"SUBJECT", "CONTENT", AttachmentKey};
  }

  /** The dictionary of a subject and a content without an attachment section. */
  lemma SubjectContent(subject: string, content: string, gap: string, trail: string)
    requires subject != "" && content != ""
    ensures BlocksDictionary([Block("SUBJECT", gap, subject, trail), Block("CONTENT", gap, content, trail)])
      == map["SUBJECT" := Str(subject), "CONTENT" := Str(content), AttachmentKey := NoValue]
  {
    var blocks := [Block("SUBJECT", gap, subject, trail), Block("CONTENT", gap, content, trail)];
    DictionaryValue(blocks, 0);
    DictionaryValue(blocks, 1);
    CollectLastWins(Pairs(blocks), AttachmentKey, |blocks|);
    DictionaryKeySet(blocks);
    assert blocks[1..][1..] == [];
    assert Titles(blocks[1..]) == {"CONTENT"};
    assert Titles(blocks) == {"SUBJECT", "CONTENT"};
  }

  /** The subject block of the `_parse_template` documentation example is well formed. */
  lemma DocSubject()
    ensures WellFormed(Block("SUBJECT", "\n", "Hello!", "\n\n"))
  {
  }

  /** The content block of the `_parse_template` documentation example is well formed. */
  lemma DocContent()
    ensures WellFormed(Block("CONTENT", "\n", "World!", "\n\n"))
  {
  }

  /** The attachment path of the `_parse_template` documentation example. */
  const DocPath := "data/attachment_example.txt"

  /** The attachment path of the documentation example is one line and holds no `[`. */
  lemma DocPathPlain()
    ensures '\n' !in DocPath && '[' !in DocPath
  {
  }

  /** The attachment block of the `_parse_template` documentation example is well formed. */
  lemma DocAttachment()
    ensures WellFormed(Block(AttachmentKey, "\n", DocPath, ""))
  {
    DocPathPlain();
  }

  /** The example of the `_parse_template` documentation: two text sections and a one-line
      attachment section, read back as the stripped texts and the list of one path. */
  lemma DocExample()
    ensures ParseTemplate(Render([Block("SUBJECT", "\n", "Hello!", "\n\n"), Block("CONTENT", "\n", "World!", "\n\n"),
                                  Block("ATTACHMENT", "\n", DocPath, "")]))
      == map["SUBJECT" := Str("Hello!"), "CONTENT" := Str("World!"), "ATTACHMENT" := Lines([DocPath])]
  {
    DocSubject();
    DocContent();
    DocAttachment();
    DocPathPlain();
    RenderedDictionary([Block("SUBJECT", "\n", "Hello!", "\n\n"), Block("CONTENT", "\n", "World!", "\n\n"),
                        Block("ATTACHMENT", "\n", DocPath, "")]);
    SubjectContentAttachment("Hello!", "World!", DocPath);
  }

  /** The content of the message test: two paragraphs, the second of two lines. */
  const TestContent := "Nice to hear from you!\n\nBest wishes,\nsender"

  /** The subject block of the message test's template is well formed. */
  lemma TestSubject()
    ensures WellFormed(Block("SUBJECT", "\n\n", "Hello, World!", "\n\n"))
  {
  }

  /** The content of the message test holds no `[`. */
  lemma TestContentPlain()
    ensures '[' !in TestContent
  {
  }

  /** The content block of the message test's template is well formed. */
  lemma TestContentBlock()
    ensures WellFormed(Block("CONTENT", "\n\n", TestContent, "\n\n"))
  {
    TestContentPlain();
  }

  /** The template of the message test: blank lines around each section; the content keeps its
      inner blank line and loses the final newline, and there is no attachment. */
  lemma TestTemplate()
    ensures ParseTemplate(Render([Block("SUBJECT", "\n\n", "Hello, World!", "\n\n"),
                                  Block("CONTENT", "\n\n", TestContent, "\n\n")]))
      == map["SUBJECT" := Str("Hello, World!"), "CONTENT" := Str(TestContent), "ATTACHMENT" := NoValue]
  {
    TestSubject();
    TestContentBlock();
    RenderedDictionary([Block("SUBJECT", "\n\n", "Hello, World!", "\n\n"), Block("CONTENT", "\n\n", TestContent, "\n\n")]);
    SubjectContent("Hello, World!", TestContent, "\n\n", "\n\n");
  }
}
