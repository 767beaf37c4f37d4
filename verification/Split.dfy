/** Splitting a response into Telegram-sized messages. */
module Split {
  import opened Common
  import opened Utf8

  /** `char::is_whitespace`: the Unicode White_Space property. */
  predicate IsWhitespace(c: char) {
    var v := c as int;
    0x09 <= v <= 0x0D || v == 0x20 || v == 0x85 || v == 0xA0 || v == 0x1680 || 0x2000 <= v <= 0x200A
    || v == 0x2028 || v == 0x2029 || v == 0x202F || v == 0x205F || v == 0x3000
  }

  predicate AllWhitespace(s: string) {
    forall i :: 0 <= i < |s| ==> IsWhitespace(s[i])
  }

  function TrimStart(s: string): string {
    if s != [] && IsWhitespace(s[0]) then TrimStart(s[1..]) else s
  }

  function TrimEnd(s: string): string {
    if s != [] && IsWhitespace(s[|s| - 1]) then TrimEnd(s[..|s| - 1]) else s
  }

  /** The longest run of whole characters that fits in `max` bytes. */
  function WindowLen(s: string, max: nat): (w: nat)
    ensures w <= |s|
  {
    if s == [] || Utf8Len(s[0]) > max then 0 else 1 + WindowLen(s[1..], max - Utf8Len(s[0]))
  }

  /** `rfind('\n')`. */
  function LastNewline(s: string): (i: Option<nat>)
    ensures i.Some? ==> i.value < |s| && s[i.value] == '\n'
  {
    if s == [] then None
    else if s[|s| - 1] == '\n' then Some(|s| - 1)
    else LastNewline(s[..|s| - 1])
  }

  /** Where the next chunk ends: at the last newline of the window unless that is its first character. */
  function Cut(s: string, max: nat): (cut: nat)
    ensures cut <= |s|
  {
    var w := WindowLen(s, max);
    var n := LastNewline(s[..w]);
    if n.None? || n.value == 0 then w else n.value
  }

  lemma {:induction false} TrimStartDrops(s: string)
    ensures |TrimStart(s)| <= |s| && s[|s| - |TrimStart(s)|..] == TrimStart(s)
    ensures AllWhitespace(s[..|s| - |TrimStart(s)|])
    ensures TrimStart(s) == [] || !IsWhitespace(TrimStart(s)[0])
  {
    if s != [] && IsWhitespace(s[0]) {
      TrimStartDrops(s[1..]);
      var n := |s| - |TrimStart(s)|;
      assert s[..n] == [s[0]] + s[1..][..n - 1];
    }
  }

  /** Every character that has to be sent fits the limit. */
  predicate Fits(s: string, max: nat) {
    forall i :: 0 <= i < |s| && !IsWhitespace(s[i]) ==> Utf8Len(s[i]) <= max
  }

  /** What remains after a turn of the loop. */
  function Rest(s: string, max: nat): string {
    TrimStart(s[Cut(s, max)..])
  }

  /** A turn drops the cut and the whitespace after it. */
  lemma RestIsSuffix(s: string, max: nat)
    ensures var from := |s| - |Rest(s, max)|;
            && Cut(s, max) <= from <= |s| && s[from..] == Rest(s, max)
            && forall k :: Cut(s, max) <= k < from ==> IsWhitespace(s[k])
  {
    hide IsWhitespace;
    var cut := Cut(s, max);
    var tail := s[cut..];
    TrimStartDrops(tail);
    var from := |s| - |Rest(s, max)|;
    assert s[from..] == tail[from - cut..];
    forall k | cut <= k < from ensures IsWhitespace(s[k]) {
      assert tail[..from - cut][k - cut] == s[k];
    }
  }

  lemma {:induction false} RestShrinks(s: string, max: nat)
    requires Fits(s, max) && ByteLen(s) > max
    ensures |Rest(s, max)| < |s| && Fits(Rest(s, max), max)
  {
    hide Rest;
    RestIsSuffix(s, max);
    if Cut(s, max) == 0 {
      assert IsWhitespace(s[0]);
      NotStuck(s, max);
    }
    var from := |s| - |Rest(s, max)|;
    assert forall i :: 0 <= i < |Rest(s, max)| ==> Rest(s, max)[i] == s[from + i];
  }

  lemma NotStuck(s: string, max: nat)
    requires s != [] && IsWhitespace(s[0]) && Cut(s, max) == 0
    ensures |Rest(s, max)| < |s|
  {
    assert s[0..] == s;
    TrimStartDrops(s[1..]);
  }

  /** The chunks still to come when `s` remains. */
  function Remaining(s: string, max: nat): seq<string>
    requires Fits(s, max)
    decreases |s|
  {
    if ByteLen(s) <= max then
      (if s == [] then [] else [s])
    else
      RestShrinks(s, max);
      [TrimEnd(s[..Cut(s, max)])] + Remaining(Rest(s, max), max)
  }

  function Chunks(text: string, max: nat): seq<string>
    requires Fits(text, max)
  {
    if ByteLen(text) <= max then [text] else Remaining(text, max)
  }

  // -- the code, on byte offsets ------------------------------------------------------------------

  lemma {:induction false} WindowIsLongest(s: string, max: nat)
    ensures ByteLen(s[..WindowLen(s, max)]) <= max
    ensures WindowLen(s, max) < |s| ==> ByteLen(s[..WindowLen(s, max) + 1]) > max
  {
    var w := WindowLen(s, max);
    if s == [] || Utf8Len(s[0]) > max {
      if s != [] { assert s[..1][1..] == []; }
    } else {
      WindowIsLongest(s[1..], max - Utf8Len(s[0]));
      assert s[..w][1..] == s[1..][..w - 1];
      if w < |s| { assert s[..w + 1][1..] == s[1..][..w]; }
    }
  }

  lemma PrefixBytesGrow(s: string, a: nat, b: nat)
    requires a <= b <= |s|
    ensures ByteLen(s[..a]) + (b - a) <= ByteLen(s[..b])
  {
    assert s[..b] == s[..a] + s[a..b];
    ByteLenAppend(s[..a], s[a..b]);
    AtLeastOneByte(s[a..b]);
  }

  lemma {:induction false} AtLeastOneByte(s: string)
    ensures |s| <= ByteLen(s)
  {
    if s != [] {
      AtLeastOneByte(s[1..]);
    }
  }

  /** Stepping back from `max` to a boundary ends at the window. */
  lemma {:induction false} ScanFindsWindow(s: string, max: nat, boundary: nat)
    requires boundary <= max <= ByteLen(s)
    requires IsCharBoundary(Encode(s), boundary)
    requires forall i: nat :: boundary < i <= max ==> !IsCharBoundary(Encode(s), i)
    ensures ByteLen(s[..WindowLen(s, max)]) == boundary
  {
    var w := WindowLen(s, max);
    WindowIsLongest(s, max);
    BoundaryIsPrefix(s, boundary);
    BoundaryIsPrefix(s, ByteLen(s[..w]));
    var k: nat :| k <= |s| && ByteLen(s[..k]) == boundary;
    if w < k {
      PrefixBytesGrow(s, w + 1, k);
    }
    PrefixBytesGrow(s, Min(k, w), w);
  }

  /** Number of characters before byte offset `boundary`: the slice `&s[..boundary]` holds that many. */
  function CharsBefore(s: string, boundary: nat): (k: nat)
    ensures k <= |s|
  {
    if s == [] || boundary == 0 then 0
    else if boundary < Utf8Len(s[0]) then 0
    else 1 + CharsBefore(s[1..], boundary - Utf8Len(s[0]))
  }

  lemma {:induction false} CharsBeforePrefix(s: string, k: nat)
    requires k <= |s|
    ensures CharsBefore(s, ByteLen(s[..k])) == k
  {
    if k > 0 {
      assert s[..k][1..] == s[1..][..k - 1];
      CharsBeforePrefix(s[1..], k - 1);
    }
  }

  /** The inner loop: from `max_len` back to the nearest character boundary. */
  method StepBack(remaining: string, max_len: nat) returns (boundary: nat)
    requires max_len <= ByteLen(remaining)
    ensures boundary == ByteLen(remaining[..WindowLen(remaining, max_len)])
  {
    var bytes := Encode(remaining);
    boundary := max_len;
    while !IsCharBoundary(bytes, boundary)
      invariant boundary <= max_len
      invariant forall i: nat :: boundary < i <= max_len ==> !IsCharBoundary(bytes, i)
      decreases boundary
    {
      boundary := boundary - 1;
    }
    ScanFindsWindow(remaining, max_len, boundary);
  }

  lemma {:induction false} SliceIsWindow(s: string, max: nat, boundary: nat)
    requires boundary == ByteLen(s[..WindowLen(s, max)])
    ensures CharsBefore(s, boundary) == WindowLen(s, max)
  {
    CharsBeforePrefix(s, WindowLen(s, max));
  }

  lemma {:induction false} CutIs(s: string, max: nat, slice: string, cut: nat)
    requires slice == s[..WindowLen(s, max)]
    requires var n := LastNewline(slice); cut == if n.None? || n.value == 0 then |slice| else n.value
    ensures cut == Cut(s, max)
  {
  }

  /** `split_message`. */
  method SplitMessage(text: string, max_len: nat) returns (chunks: seq<string>)
    requires Fits(text, max_len)
    ensures chunks == Chunks(text, max_len)
  {
    hide WindowLen, CharsBefore, TrimStart, TrimEnd, Fits, Cut, LastNewline, ByteLen;
    if ByteLen(text) <= max_len {
      return [text];
    }
    chunks := [];
    var remaining := text;
    while ByteLen(remaining) > max_len
      invariant Fits(remaining, max_len)
      invariant chunks + Remaining(remaining, max_len) == Remaining(text, max_len)
      decreases |remaining|
    {
      var boundary := StepBack(remaining, max_len);
      SliceIsWindow(remaining, max_len, boundary);
      var slice := remaining[..CharsBefore(remaining, boundary)];
      var newline := LastNewline(slice);
      var cut := if newline.None? then |slice| else newline.value;
      cut := if cut == 0 then |slice| else cut;
      CutIs(remaining, max_len, slice, cut);
      RestShrinks(remaining, max_len);
      chunks := chunks + [TrimEnd(remaining[..cut])];
      remaining := TrimStart(remaining[cut..]);
    }
    if remaining != [] {
      chunks := chunks + [remaining];
    }
  }

  // -- what the chunks are ------------------------------------------------------------------------

  /** `text` is the chunks in order, with only whitespace between and around them. */
  ghost predicate Woven(text: string, chunks: seq<string>) {
    if chunks == [] then
      AllWhitespace(text)
    else
      exists gap: nat :: WovenAt(text, chunks, gap)
  }

  ghost predicate WovenAt(text: string, chunks: seq<string>, gap: nat)
    requires chunks != []
  {
    && gap + |chunks[0]| <= |text|
    && AllWhitespace(text[..gap])
    && text[gap..gap + |chunks[0]|] == chunks[0]
    && Woven(text[gap + |chunks[0]|..], chunks[1..])
  }

  lemma {:induction false} TrimEndDrops(s: string)
    ensures |TrimEnd(s)| <= |s| && s[..|TrimEnd(s)|] == TrimEnd(s)
    ensures AllWhitespace(s[|TrimEnd(s)|..])
    ensures ByteLen(TrimEnd(s)) <= ByteLen(s)
    ensures s != [] && !IsWhitespace(s[0]) ==> TrimEnd(s) != []
    ensures TrimEnd(s) == [] || !IsWhitespace(TrimEnd(s)[|TrimEnd(s)| - 1])
  {
    if s != [] && IsWhitespace(s[|s| - 1]) {
      var init := s[..|s| - 1];
      TrimEndDrops(init);
      assert s == init + [s[|s| - 1]];
      ByteLenAppend(init, [s[|s| - 1]]);
      assert s[|TrimEnd(s)|..] == init[|TrimEnd(s)|..] + [s[|s| - 1]];
    }
  }

  /** `t` is `s` without the whitespace at both ends. */
  ghost predicate IsTrimmed(s: string, t: string) {
    && (exists i: nat :: i + |t| <= |s| && TrimmedAt(s, t, i))
    && (t != [] ==> !IsWhitespace(t[0]) && !IsWhitespace(t[|t| - 1]))
  }

  ghost predicate TrimmedAt(s: string, t: string, i: nat)
    requires i + |t| <= |s|
  {
    s[i..i + |t|] == t && AllWhitespace(s[..i]) && AllWhitespace(s[i + |t|..])
  }

  lemma SliceOfPrefix(s: string, n: nat, i: nat)
    requires i <= n <= |s|
    ensures s[i..n] == s[..n][i..] && s[..i] == s[..n][..i]
  {
  }

  lemma {:induction false} TrimmingTrims(s: string)
    ensures IsTrimmed(s, TrimStart(TrimEnd(s)))
  {
    hide IsWhitespace, TrimStart, TrimEnd, AllWhitespace, ByteLen;
    var u := TrimEnd(s);
    var t := TrimStart(u);
    TrimEndDrops(s);
    TrimStartDrops(u);
    var i := |u| - |t|;
    SliceOfPrefix(s, |u|, i);
    assert i + |t| == |u| && t == u[i..];
    assert TrimmedAt(s, t, i);
    assert t != [] ==> t[|t| - 1] == u[|u| - 1];
  }

  /** Whitespace in front does not matter. */
  lemma {:induction false} GapWidens(blank: string, text: string, chunks: seq<string>)
    requires AllWhitespace(blank) && Woven(text, chunks)
    ensures Woven(blank + text, chunks)
  {
    if chunks != [] {
      var gap: nat :| WovenAt(text, chunks, gap);
      var all := blank + text;
      var g := |blank| + gap;
      assert all[..g] == blank + text[..gap];
      assert all[g..g + |chunks[0]|] == text[gap..gap + |chunks[0]|];
      assert all[g + |chunks[0]|..] == text[gap + |chunks[0]|..];
      assert WovenAt(all, chunks, g);
    }
  }

  /** No character but whitespace is lost, added or moved. */
  lemma {:induction false} RemainingWeaves(s: string, max: nat)
    requires Fits(s, max)
    ensures Woven(s, Remaining(s, max))
    decreases |s|
  {
    hide Fits;
    if ByteLen(s) <= max {
      if s != [] {
        assert s[0..0 + |s|] == s && s[..0] == [] && s[|s|..] == [];
        assert WovenAt(s, [s], 0);
      }
    } else {
      RestShrinks(s, max);
      RemainingWeaves(Rest(s, max), max);
      WeaveChunk(s, Cut(s, max), Remaining(Rest(s, max), max));
    }
  }

  lemma {:induction false} WeaveChunk(s: string, cut: nat, rest: seq<string>)
    requires cut <= |s| && Woven(TrimStart(s[cut..]), rest)
    ensures Woven(s, [TrimEnd(s[..cut])] + rest)
  {
    hide IsWhitespace, TrimStart, TrimEnd, ByteLen, Woven;
    var head, tail := s[..cut], s[cut..];
    var chunk, next := TrimEnd(head), TrimStart(tail);
    TrimEndDrops(head);
    TrimStartDrops(tail);
    var blank := head[|chunk|..] + tail[..|tail| - |next|];
    Sandwich(head, tail, |chunk|, |tail| - |next|);
    assert s == head + tail;
    GapWidens(blank, next, rest);
    FirstWoven(s, chunk, rest);
  }

  lemma Sandwich(head: string, tail: string, h: nat, t: nat)
    requires h <= |head| && t <= |tail|
    ensures (head + tail)[h..] == (head[h..] + tail[..t]) + tail[t..]
    ensures (head + tail)[..h] == head[..h]
  {
  }

  lemma {:induction false} FirstWoven(s: string, chunk: string, rest: seq<string>)
    requires chunk <= s && Woven(s[|chunk|..], rest)
    ensures Woven(s, [chunk] + rest)
  {
    assert ([chunk] + rest)[1..] == rest;
    assert s[0..0 + |chunk|] == chunk && s[..0] == [];
    assert WovenAt(s, [chunk] + rest, 0);
  }

  /** Every chunk fits the limit in bytes. */
  lemma {:induction false} RemainingFits(s: string, max: nat, i: nat)
    requires Fits(s, max) && i < |Remaining(s, max)|
    ensures ByteLen(Remaining(s, max)[i]) <= max
    decreases |s|
  {
    hide Fits;
    if ByteLen(s) > max {
      var cut := Cut(s, max);
      RestShrinks(s, max);
      if i == 0 {
        TrimEndDrops(s[..cut]);
        WindowIsLongest(s, max);
        PrefixBytesGrow(s, cut, WindowLen(s, max));
      } else {
        RemainingFits(Rest(s, max), max, i - 1);
      }
    }
  }

  /** No chunk is empty when the text does not start with whitespace. */
  lemma {:induction false} RemainingNonEmpty(s: string, max: nat, i: nat)
    requires Fits(s, max) && i < |Remaining(s, max)|
    requires s != [] && !IsWhitespace(s[0])
    ensures Remaining(s, max)[i] != []
    decreases |s|
  {
    if ByteLen(s) > max {
      RestShrinks(s, max);
      TrimStartDrops(s[Cut(s, max)..]);
      TrimEndDrops(s[..Cut(s, max)]);
      if i > 0 {
        RemainingNonEmpty(Rest(s, max), max, i - 1);
      }
    }
  }

  /** The split of any text: chunks within the limit, in bytes and in UTF-16 units, that weave back into the text. */
  lemma {:induction false} SplitIsFaithful(text: string, max: nat)
    requires Fits(text, max)
    ensures Woven(text, Chunks(text, max))
    ensures forall c :: c in Chunks(text, max) ==> Utf16Len(c) <= ByteLen(c) <= max
    ensures text != [] && !IsWhitespace(text[0]) ==> [] !in Chunks(text, max)
  {
    var chunks := Chunks(text, max);
    if ByteLen(text) <= max {
      assert text[0..0 + |text|] == text && text[..0] == [] && text[|text|..] == [];
      assert WovenAt(text, [text], 0);
    } else {
      RemainingWeaves(text, max);
    }
    forall i | 0 <= i < |chunks| ensures Utf16Len(chunks[i]) <= ByteLen(chunks[i]) <= max {
      Utf16Fits(chunks[i]);
      if ByteLen(text) > max { RemainingFits(text, max, i); }
    }
    if text != [] && !IsWhitespace(text[0]) && ByteLen(text) > max {
      forall i | 0 <= i < |chunks| ensures chunks[i] != [] {
        RemainingNonEmpty(text, max, i);
      }
    }
  }

  lemma {:induction false} LastNewlineIsLast(s: string, i: nat)
    requires i < |s| && s[i] == '\n'
    ensures LastNewline(s).Some? && i <= LastNewline(s).value
  {
    if s[|s| - 1] != '\n' {
      LastNewlineIsLast(s[..|s| - 1], i);
    }
  }

  /**
   * A chunk ends at a newline whenever one after its first character fits, at the last such; otherwise it is as long
   * as the limit allows.
   */
  lemma {:induction false} CutPrefersNewline(s: string, max: nat)
    ensures var w, cut := WindowLen(s, max), Cut(s, max);
            if exists i :: 0 < i < w && s[i] == '\n'
            then 0 < cut < w && s[cut] == '\n' && '\n' !in s[cut + 1..w]
            else cut == w
  {
    var w := WindowLen(s, max);
    forall i | 0 <= i < w && s[i] == '\n' ensures LastNewline(s[..w]).Some? && i <= LastNewline(s[..w]).value {
      LastNewlineIsLast(s[..w], i);
    }
  }

  /** The characters of a text that are not whitespace, in order. */
  function Ink(s: string): string {
    if s == [] then [] else (if IsWhitespace(s[0]) then [] else [s[0]]) + Ink(s[1..])
  }

  function InkOf(chunks: seq<string>): string {
    if chunks == [] then [] else Ink(chunks[0]) + InkOf(chunks[1..])
  }

  lemma {:induction false} InkAppend(a: string, b: string)
    ensures Ink(a + b) == Ink(a) + Ink(b)
  {
    if a == [] {
      assert a + b == b;
    } else {
      assert (a + b)[1..] == a[1..] + b;
      InkAppend(a[1..], b);
    }
  }

  lemma {:induction false} BlankHasNoInk(s: string)
    requires AllWhitespace(s)
    ensures Ink(s) == []
  {
    if s != [] {
      BlankHasNoInk(s[1..]);
    }
  }

  /** Woven chunks carry every non-whitespace character of the text, in order. */
  lemma {:induction false} WovenKeepsInk(text: string, chunks: seq<string>)
    requires Woven(text, chunks)
    ensures InkOf(chunks) == Ink(text)
    decreases |chunks|
  {
    if chunks == [] {
      BlankHasNoInk(text);
    } else {
      var gap: nat :| WovenAt(text, chunks, gap);
      var n := gap + |chunks[0]|;
      assert text == text[..gap] + (text[gap..n] + text[n..]);
      InkAppend(text[..gap], text[gap..n] + text[n..]);
      InkAppend(text[gap..n], text[n..]);
      BlankHasNoInk(text[..gap]);
      WovenKeepsInk(text[n..], chunks[1..]);
    }
  }

  /** Position `k` and the character there are within the first `max` bytes. */
  ghost predicate Within(s: string, max: nat, k: nat) {
    k < |s| && ByteLen(s[..k + 1]) <= max
  }

  lemma {:induction false} WithinIsWindow(s: string, max: nat, k: nat)
    ensures Within(s, max, k) <==> k < WindowLen(s, max)
  {
    var w := WindowLen(s, max);
    WindowIsLongest(s, max);
    if k < w {
      PrefixBytesGrow(s, k + 1, w);
    } else if k < |s| {
      PrefixBytesGrow(s, w + 1, k + 1);
    }
  }

  /**
   * A text over the limit is cut at the last newline after its first character that is within the limit, or, if there
   * is none, after the last character that is. The first chunk is what comes before the cut, less the whitespace at its
   * end; the others are those of what comes after it, less the whitespace at its start.
   */
  lemma {:induction false} FirstChunk(text: string, max: nat) returns (cut: nat)
    requires Fits(text, max) && ByteLen(text) > max
    ensures cut <= |text| && Fits(TrimStart(text[cut..]), max)
    ensures if exists k: nat :: 0 < k && Within(text, max, k) && text[k] == '\n'
            then 0 < cut && Within(text, max, cut) && text[cut] == '\n'
                 && forall k: nat :: k > cut && Within(text, max, k) ==> text[k] != '\n'
            else forall k: nat :: k < cut <==> Within(text, max, k)
    ensures var rest := TrimStart(text[cut..]);
            Chunks(text, max) == [TrimEnd(text[..cut])] + if rest == [] then [] else Chunks(rest, max)
  {
    hide WindowLen, ByteLen, TrimEnd, Fits;
    cut := Cut(text, max);
    forall k: nat ensures Within(text, max, k) <==> k < WindowLen(text, max) {
      WithinIsWindow(text, max, k);
    }
    hide Within;
    RestShrinks(text, max);
    CutIsAtNewline(text, max);
    RestSplits(Rest(text, max), max);
  }

  lemma {:induction false} RestSplits(rest: string, max: nat)
    requires Fits(rest, max)
    ensures Remaining(rest, max) == if rest == [] then [] else Chunks(rest, max)
  {
    hide Fits;
  }

  lemma {:induction false} CutIsAtNewline(s: string, max: nat)
    ensures var w, cut := WindowLen(s, max), Cut(s, max);
            if exists k: nat :: 0 < k < w && s[k] == '\n'
            then 0 < cut < w && s[cut] == '\n' && forall k: nat :: cut < k < w ==> s[k] != '\n'
            else cut == w
  {
    hide WindowLen;
    var w, cut := WindowLen(s, max), Cut(s, max);
    CutPrefersNewline(s, max);
    if cut < w {
      forall k: nat | cut < k < w ensures s[k] != '\n' {
        assert s[k] == s[cut + 1..w][k - cut - 1];
      }
    }
  }

  /** `t` is `s` without its first `k` characters, all of them whitespace, and does not start with whitespace. */
  ghost predicate FrontTrimmed(s: string, t: string, k: nat) {
    k <= |s| && t == s[k..] && AllWhitespace(s[..k]) && (t == [] || !IsWhitespace(t[0]))
  }

  /** `t` is the first `k` characters of `s`, the others are whitespace, and it does not end in whitespace. */
  ghost predicate EndTrimmed(s: string, t: string, k: nat) {
    k <= |s| && t == s[..k] && AllWhitespace(s[k..]) && (t == [] || !IsWhitespace(t[|t| - 1]))
  }

  /** Trimming takes away whitespace, all of it, and nothing else. */
  lemma {:induction false} TrimmingIsExact(s: string)
    ensures exists k: nat :: FrontTrimmed(s, TrimStart(s), k)
    ensures exists k: nat :: EndTrimmed(s, TrimEnd(s), k)
  {
    hide IsWhitespace, TrimStart, TrimEnd, AllWhitespace, ByteLen;
    TrimStartDrops(s);
    TrimEndDrops(s);
    assert FrontTrimmed(s, TrimStart(s), |s| - |TrimStart(s)|);
    assert EndTrimmed(s, TrimEnd(s), |TrimEnd(s)|);
  }

  /** The twenty-five characters with the Unicode property White_Space. */
  lemma WhitespaceIs(c: char)
    ensures IsWhitespace(c) <==>
            c as int in {0x09, 0x0A, 0x0B, 0x0C, 0x0D, 0x20, 0x85, 0xA0, 0x1680, 0x2000, 0x2001, 0x2002, 0x2003, 0x2004,
                         0x2005, 0x2006, 0x2007, 0x2008, 0x2009, 0x200A, 0x2028, 0x2029, 0x202F, 0x205F, 0x3000}
  {
  }

  // -- when the loop ends -------------------------------------------------------------------------

  /** What remains after `n` turns of the loop. */
  function After(text: string, max: nat, n: nat): string
    decreases n
  {
    if n == 0 || ByteLen(text) <= max then text else After(Rest(text, max), max, n - 1)
  }

  lemma {:induction false} WindowFits(s: string, max: nat, i: nat)
    requires i < WindowLen(s, max)
    ensures Utf8Len(s[i]) <= max
  {
    if i > 0 {
      WindowFits(s[1..], max - Utf8Len(s[0]), i - 1);
    }
  }

  /** A character that does not fit is never sent. */
  lemma OversizeStays(s: string, max: nat)
    requires !Fits(s, max)
    ensures !Fits(Rest(s, max), max)
  {
    var i :| 0 <= i < |s| && !IsWhitespace(s[i]) && Utf8Len(s[i]) > max;
    hide Rest;
    RestIsSuffix(s, max);
    forall k: nat | k < Cut(s, max) ensures Utf8Len(s[k]) <= max {
      WindowFits(s, max, k);
    }
    var from := |s| - |Rest(s, max)|;
    assert Rest(s, max)[i - from] == s[from..][i - from] == s[i];
  }

  lemma {:induction false} ShortTextFits(s: string, max: nat)
    requires ByteLen(s) <= max
    ensures Fits(s, max)
  {
    if s != [] {
      ShortTextFits(s[1..], max);
      assert forall i :: 0 < i < |s| ==> s[i] == s[1..][i - 1];
    }
  }

  lemma {:induction false} NeverDone(text: string, max: nat, n: nat)
    requires !Fits(text, max)
    ensures ByteLen(After(text, max, n)) > max
    decreases n
  {
    if ByteLen(text) <= max {
      ShortTextFits(text, max);
    } else if n > 0 {
      OversizeStays(text, max);
      NeverDone(Rest(text, max), max, n - 1);
    }
  }

  lemma {:induction false} DoneInTime(text: string, max: nat)
    requires Fits(text, max)
    ensures ByteLen(After(text, max, |text|)) <= max
    decreases |text|
  {
    if ByteLen(text) > max {
      RestShrinks(text, max);
      DoneInTime(Rest(text, max), max);
      MoreTurns(Rest(text, max), max, |Rest(text, max)|, |text| - 1);
    }
  }

  lemma {:induction false} MoreTurns(text: string, max: nat, n: nat, m: nat)
    requires n <= m && ByteLen(After(text, max, n)) <= max
    ensures ByteLen(After(text, max, m)) <= max
    decreases n
  {
    if n > 0 && ByteLen(text) > max {
      MoreTurns(Rest(text, max), max, n - 1, m - 1);
    }
  }

  /** The loop ends exactly when every character but whitespace fits the limit; with four bytes any text does. */
  lemma {:induction false} SplitEndsExactlyWhen(text: string, max: nat)
    ensures (exists n: nat :: ByteLen(After(text, max, n)) <= max) <==> Fits(text, max)
    ensures max >= 4 ==> Fits(text, max)
  {
    if Fits(text, max) {
      DoneInTime(text, max);
    } else if n: nat :| ByteLen(After(text, max, n)) <= max {
      NeverDone(text, max, n);
    }
  }
}
