/** Numbering the options of an AskUserQuestion call and reading a reply back into answers. */
module Questions {
  import opened Common
  import opened Decimal
  import opened Split

  /** `name` is the option's label. */
  datatype QOption = QOption(name: string, description: Option<string>)

  datatype Question = Question(header: Option<string>, text: string, multi_select: bool, options: seq<QOption>)

  /** An option by question and position within it. */
  datatype Pos = Pos(q: nat, o: nat)

  predicate IsOption(qs: seq<Question>, p: Pos) {
    p.q < |qs| && p.o < |qs[p.q].options|
  }

  function Positions(q: nat, n: nat): (ps: seq<Pos>)
    ensures |ps| == n
    ensures forall o :: 0 <= o < n ==> ps[o] == Pos(q, o)
  {
    seq(n, o requires 0 <= o < n => Pos(q, o))
  }

  /** All options in global numbering order. */
  function Flat(qs: seq<Question>): (ps: seq<Pos>)
    ensures forall k :: 0 <= k < |ps| ==> IsOption(qs, ps[k])
  {
    if qs == [] then [] else Flat(qs[..|qs| - 1]) + Positions(|qs| - 1, |qs[|qs| - 1].options|)
  }

  ghost predicate Precedes(a: Pos, b: Pos) {
    a.q < b.q || (a.q == b.q && a.o < b.o)
  }

  /** The numbering runs through every option once, in ask order. */
  lemma {:induction false} FlatListsAll(qs: seq<Question>)
    ensures forall p :: IsOption(qs, p) ==> p in Flat(qs)
    ensures forall i, j :: 0 <= i < j < |Flat(qs)| ==> Precedes(Flat(qs)[i], Flat(qs)[j])
  {
    if qs != [] {
      var n := |qs| - 1;
      var init := Flat(qs[..n]);
      var own := Positions(n, |qs[n].options|);
      FlatListsAll(qs[..n]);
      forall p | IsOption(qs, p) ensures p in Flat(qs) {
        if p.q == n {
          assert own[p.o] == p;
        } else {
          assert IsOption(qs[..n], p);
        }
      }
      assert forall i :: 0 <= i < |init| ==> IsOption(qs[..n], init[i]);
    }
  }

  /** `flat_options`. */
  method FlatOptions(qs: seq<Question>) returns (flat: seq<Pos>)
    ensures flat == Flat(qs)
  {
    flat := [];
    for q := 0 to |qs|
      invariant flat == Flat(qs[..q])
    {
      for o := 0 to |qs[q].options|
        invariant flat == Flat(qs[..q]) + Positions(q, |qs[q].options|)[..o]
      {
        flat := flat + [Pos(q, o)];
      }
      assert qs[..q + 1][..q] == qs[..q];
    }
    assert qs[..|qs|] == qs;
  }

  // -- rendering ----------------------------------------------------------------------------------

  /** A line of the rendered message; only option lines carry content the reply refers to. */
  datatype Line =
    | Plain(text: string)
    | OptionLine(number: nat, name: string, description: Option<string>)

  function OptionLines(lines: seq<Line>): seq<Line> {
    if lines == [] then
      []
    else
      var init := OptionLines(lines[..|lines| - 1]);
      if lines[|lines| - 1].OptionLine? then init + [lines[|lines| - 1]] else init
  }

  lemma {:induction false} OptionLinesAppend(lines: seq<Line>, l: Line)
    ensures OptionLines(lines + [l]) == OptionLines(lines) + (if l.OptionLine? then [l] else [])
  {
    assert (lines + [l])[..|lines + [l]| - 1] == lines;
  }

  /** `shown` are the options `flat` numbered from one. */
  ghost predicate Numbered(qs: seq<Question>, flat: seq<Pos>, shown: seq<Line>) {
    && |shown| == |flat|
    && forall k :: 0 <= k < |flat| ==> IsOption(qs, flat[k]) && ShowsOption(qs, flat[k], k + 1, shown[k])
  }

  ghost predicate ShowsOption(qs: seq<Question>, p: Pos, number: int, l: Line)
    requires IsOption(qs, p)
  {
    var opt := qs[p.q].options[p.o];
    l.OptionLine? && l.number == number && l.name == opt.name && l.description == opt.description
  }

  /** `render`: the n-th option line shows the n-th option of the numbering. */
  method Render(qs: seq<Question>) returns (out: seq<Line>)
    ensures Numbered(qs, Flat(qs), OptionLines(out))
    ensures |OptionLines(out)| == |Flat(qs)|
    ensures forall k :: 0 <= k < |Flat(qs)| ==>
              var option := qs[Flat(qs)[k].q].options[Flat(qs)[k].o];
              OptionLines(out)[k] == OptionLine(k + 1, option.name, option.description)
  {
    out := [Plain("input needed")];
    var n := 0;
    for i := 0 to |qs|
      invariant Numbered(qs, Flat(qs[..i]), OptionLines(out)) && n == |Flat(qs[..i])|
    {
      var q := qs[i];
      var intro := if q.header.Some? then [Plain(""), Plain(q.header.value), Plain(q.text)]
                   else [Plain(""), Plain(q.text)];
      PlainsAddNothing(out, intro);
      out := out + intro;
      ghost var before := OptionLines(out);
      for o := 0 to |q.options|
        invariant OptionLines(out) == before + OptionBlock(q.options[..o], |before|)
        invariant n == |before| + o
      {
        n := n + 1;
        OptionLinesAppend(out, OptionLine(n, q.options[o].name, q.options[o].description));
        BlockGrows(q.options, o, |before|);
        out := out + [OptionLine(n, q.options[o].name, q.options[o].description)];
      }
      assert q.options[..|q.options|] == q.options;
      if q.multi_select {
        OptionLinesAppend(out, Plain("multi-select"));
        out := out + [Plain("multi-select")];
      }
      NumberedGrows(qs, i, before);
    }
    assert qs[..|qs|] == qs;
    OptionLinesAppend(out, Plain("footer"));
    out := out + [Plain("footer")];
  }

  /** The option lines of one question when `n` options came before. */
  function OptionBlock(options: seq<QOption>, n: nat): (ls: seq<Line>)
    ensures |ls| == |options|
    ensures forall o :: 0 <= o < |options| ==> ls[o] == OptionLine(n + o + 1, options[o].name, options[o].description)
  {
    seq(|options|, o requires 0 <= o < |options| => OptionLine(n + o + 1, options[o].name, options[o].description))
  }

  lemma BlockGrows(options: seq<QOption>, o: nat, n: nat)
    requires o < |options|
    ensures OptionBlock(options[..o + 1], n) ==
            OptionBlock(options[..o], n) + [OptionLine(n + o + 1, options[o].name, options[o].description)]
  {
  }

  lemma {:induction false} PlainsAddNothing(lines: seq<Line>, plains: seq<Line>)
    requires forall k :: 0 <= k < |plains| ==> plains[k].Plain?
    ensures OptionLines(lines + plains) == OptionLines(lines)
  {
    if plains == [] {
      assert lines + plains == lines;
    } else {
      var n := |plains| - 1;
      PlainsAddNothing(lines, plains[..n]);
      OptionLinesAppend(lines + plains[..n], plains[n]);
      assert lines + plains == (lines + plains[..n]) + [plains[n]];
    }
  }

  lemma NumberedGrows(qs: seq<Question>, i: nat, shown: seq<Line>)
    requires i < |qs| && Numbered(qs, Flat(qs[..i]), shown)
    ensures Numbered(qs, Flat(qs[..i + 1]), shown + OptionBlock(qs[i].options, |shown|))
  {
    assert qs[..i + 1][..i] == qs[..i];
    var flat := Flat(qs[..i + 1]);
    assert flat == Flat(qs[..i]) + Positions(i, |qs[i].options|);
  }

  // -- reading a reply -------------------------------------------------------------------------------

  /** `split` at every character that is not an ASCII digit. */
  function Pieces(s: string): (ps: seq<string>)
    ensures ps != [] && forall k :: 0 <= k < |ps| ==> AllDigits(ps[k])
  {
    if s == [] then
      [[]]
    else
      var rest := Pieces(s[1..]);
      if IsDigit(s[0]) then [[s[0]] + rest[0]] + rest[1..] else [[]] + rest
  }

  /** The number a piece picks among `m` options, if any. */
  function Pick(piece: string, m: nat): seq<nat> {
    var n := ParseUsize(piece);
    if n.Some? && 1 <= n.value <= m then [n.value] else []
  }

  function PicksOf(pieces: seq<string>, m: nat): (ns: seq<nat>)
    ensures forall k :: 0 <= k < |ns| ==> 1 <= ns[k] <= m
  {
    if pieces == [] then [] else Pick(pieces[0], m) + PicksOf(pieces[1..], m)
  }

  function Picks(reply: string, m: nat): seq<nat> {
    PicksOf(Pieces(reply), m)
  }

  lemma {:induction false} PicksAppend(a: seq<string>, b: seq<string>, m: nat)
    ensures PicksOf(a + b, m) == PicksOf(a, m) + PicksOf(b, m)
  {
    if a == [] {
      assert a + b == b;
    } else {
      assert (a + b)[1..] == a[1..] + b;
      PicksAppend(a[1..], b, m);
    }
  }

  /** What one more character in front does to the pieces. */
  function Extended(c: char, ps: seq<string>): seq<string>
    requires ps != []
  {
    if IsDigit(c) then [[c] + ps[0]] + ps[1..] else [[]] + ps
  }

  lemma {:induction false} PiecesCons(c: char, s: string)
    ensures Pieces([c] + s) == Extended(c, Pieces(s))
  {
    assert ([c] + s)[1..] == s;
  }

  lemma ExtendedAppend(c: char, ps: seq<string>, more: seq<string>)
    requires ps != []
    ensures Extended(c, ps + more) == Extended(c, ps) + more
  {
    assert (ps + more)[1..] == ps[1..] + more;
  }

  lemma {:induction false} PiecesJoin(a: string, c: char, b: string)
    requires !IsDigit(c)
    ensures Pieces(a + [c] + b) == Pieces(a) + Pieces(b)
    decreases |a|, 1
  {
    if a == [] {
      assert a + [c] + b == [c] + b;
      PiecesCons(c, b);
    } else {
      PiecesJoinStep(a, c, b);
    }
  }

  lemma {:induction false} PiecesJoinStep(a: string, c: char, b: string)
    requires a != [] && !IsDigit(c)
    ensures Pieces(a + [c] + b) == Pieces(a) + Pieces(b)
    decreases |a|, 0
  {
    hide Pieces, Extended;
    PiecesJoin(a[1..], c, b);
    assert a == [a[0]] + a[1..];
    assert a + [c] + b == [a[0]] + (a[1..] + [c] + b);
    PiecesCons(a[0], a[1..] + [c] + b);
    PiecesCons(a[0], a[1..]);
    ExtendedAppend(a[0], Pieces(a[1..]), Pieces(b));
  }

  /** Any separator between two texts keeps their picks apart and in order. */
  lemma PicksJoin(a: string, c: char, b: string, m: nat)
    requires !IsDigit(c)
    ensures Picks(a + [c] + b, m) == Picks(a, m) + Picks(b, m)
  {
    PiecesJoin(a, c, b);
    PicksAppend(Pieces(a), Pieces(b), m);
  }

  /** `join("\n")` of several replies. */
  function JoinLines(texts: seq<string>): string {
    if texts == [] then []
    else if |texts| == 1 then texts[0]
    else JoinLines(texts[..|texts| - 1]) + ['\n'] + texts[|texts| - 1]
  }

  function AllPicks(texts: seq<string>, m: nat): seq<nat> {
    if texts == [] then [] else AllPicks(texts[..|texts| - 1], m) + Picks(texts[|texts| - 1], m)
  }

  /** The picks of joined replies are those of each reply, one after the other. */
  lemma {:induction false} JoinedPicks(texts: seq<string>, m: nat)
    ensures Picks(JoinLines(texts), m) == AllPicks(texts, m)
  {
    var n := |texts| - 1;
    if texts == [] {
      assert PicksOf([[]], m) == Pick([], m) + PicksOf([], m);
    } else if n == 0 {
      assert AllPicks(texts[..0], m) == [];
    } else {
      JoinedPicks(texts[..n], m);
      PicksJoin(JoinLines(texts[..n]), '\n', texts[n], m);
    }
  }

  lemma {:induction false} DigitsAreOnePiece(d: string)
    requires AllDigits(d)
    ensures Pieces(d) == [d]
  {
    if d != [] {
      DigitsAreOnePiece(d[1..]);
      assert [d[0]] + d[1..] == d;
    }
  }

  /** A run of digits picks the option it denotes and nothing when out of range, however long it is. */
  lemma {:induction false} DigitRunPicks(d: string, m: nat)
    requires d != [] && AllDigits(d) && m <= 0xFFFF_FFFF_FFFF_FFFF
    ensures Picks(d, m) == if 1 <= Value(d) <= m then [Value(d)] else []
  {
    DigitsAreOnePiece(d);
    DigitsAreNotSigns(d);
    assert PicksOf([d], m) == Pick(d, m) + PicksOf([], m);
  }

  predicate NoDigits(s: string) {
    forall i :: 0 <= i < |s| ==> !IsDigit(s[i])
  }

  lemma {:induction false} SeparatorPicksNothing(s: string, m: nat)
    requires NoDigits(s)
    ensures Picks(s, m) == []
  {
    if s == [] {
      assert PicksOf([[]], m) == Pick([], m) + PicksOf([], m);
    } else {
      SeparatorPicksNothing(s[1..], m);
      assert PicksOf([[]] + Pieces(s[1..]), m) == Pick([], m) + PicksOf(Pieces(s[1..]), m);
    }
  }

  /** Numbers in decimal with the text `seps[k]` before the k-th. */
  function Listing(ns: seq<nat>, seps: seq<string>): string
    requires |seps| == |ns|
  {
    if ns == [] then [] else Listing(ns[..|ns| - 1], seps[..|ns| - 1]) + seps[|ns| - 1] + ShowNat(ns[|ns| - 1])
  }

  /** A listing: digit-free separators, at least one character between two numbers, and digit-free text at the end. */
  ghost predicate Separated(ns: seq<nat>, seps: seq<string>, tail: string) {
    && |seps| == |ns|
    && (forall k :: 0 <= k < |seps| ==> NoDigits(seps[k]) && (k > 0 ==> seps[k] != []))
    && NoDigits(tail)
  }

  /** Whatever valid numbers a reply lists, in whatever digit-free text, exactly those are picked, in order. */
  lemma {:induction false} ListingPicks(ns: seq<nat>, seps: seq<string>, tail: string, m: nat)
    requires Separated(ns, seps, tail) && m <= 0xFFFF_FFFF_FFFF_FFFF
    requires forall k :: 0 <= k < |ns| ==> 1 <= ns[k] <= m
    ensures Picks(Listing(ns, seps) + tail, m) == ns
  {
    hide Picks, Listing;
    NumbersPick(ns, seps, m);
    if tail == [] {
      assert Listing(ns, seps) + tail == Listing(ns, seps);
    } else {
      assert Listing(ns, seps) + tail == Listing(ns, seps) + [tail[0]] + tail[1..];
      SeparatorPicksNothing(tail[1..], m);
      PicksJoin(Listing(ns, seps), tail[0], tail[1..], m);
    }
  }

  lemma {:induction false} NumbersPick(ns: seq<nat>, seps: seq<string>, m: nat)
    requires Separated(ns, seps, []) && m <= 0xFFFF_FFFF_FFFF_FFFF
    requires forall k :: 0 <= k < |ns| ==> 1 <= ns[k] <= m
    ensures Picks(Listing(ns, seps), m) == ns
  {
    hide Picks;
    var n := |ns| - 1;
    if ns == [] {
      SeparatorPicksNothing([], m);
    } else {
      var before, sep, digits := Listing(ns[..n], seps[..n]), seps[n], ShowNat(ns[n]);
      NumbersPick(ns[..n], seps[..n], m);
      ShowNatDenotes(ns[n]);
      DigitRunPicks(digits, m);
      if sep == [] {
        assert n == 0 && ns == [ns[0]];
        assert before + sep + digits == digits;
      } else {
        LastSeparator(before, sep, digits, m);
        assert ns == ns[..n] + [ns[n]];
      }
    }
  }

  lemma LastSeparator(before: string, sep: string, digits: string, m: nat)
    requires sep != [] && NoDigits(sep)
    ensures Picks(before + sep + digits, m) == Picks(before, m) + Picks(digits, m)
  {
    hide Picks;
    var k := |sep| - 1;
    assert before + sep + digits == before + ([sep[0]] + sep[1..]) + digits;
    if k == 0 {
      assert sep == [sep[0]];
      PicksJoin(before, sep[0], digits, m);
    } else {
      var rest := sep[1..k];
      assert before + sep + digits == before + [sep[0]] + (rest + [sep[k]] + digits);
      PicksJoin(before, sep[0], rest + [sep[k]] + digits, m);
      PicksJoin(rest, sep[k], digits, m);
      SeparatorPicksNothing(rest, m);
    }
  }

  // -- the answer ----------------------------------------------------------------------------------------

  datatype AnswerLine = AnswerLine(title: string, chosen: seq<string>)

  datatype Answer = FreeText(reply: string) | Grouped(lines: seq<AnswerLine>)

  function Title(q: Question): string {
    if q.header.Some? then q.header.value else q.text
  }

  /** Labels picked for question `q`, in reply order. */
  function Chosen(qs: seq<Question>, flat: seq<Pos>, picks: seq<nat>, q: nat): seq<string>
    requires forall k :: 0 <= k < |flat| ==> IsOption(qs, flat[k])
    requires forall k :: 0 <= k < |picks| ==> 1 <= picks[k] <= |flat|
  {
    if picks == [] then
      []
    else
      var n := |picks| - 1;
      var p := flat[picks[n] - 1];
      Chosen(qs, flat, picks[..n], q) + (if p.q == q then [qs[q].options[p.o].name] else [])
  }

  /** What `answer_from_reply` says: the trimmed reply when nothing was picked, else every question with its labels. */
  ghost predicate Answers(qs: seq<Question>, reply: string, a: Answer) {
    var picks := Picks(reply, |Flat(qs)|);
    if picks == [] then
      a == FreeText(TrimStart(TrimEnd(reply)))
    else
      && a.Grouped? && |a.lines| == |qs|
      && forall q :: 0 <= q < |qs| ==> a.lines[q] == AnswerLine(Title(qs[q]), Chosen(qs, Flat(qs), picks, q))
  }

  /** Group the picked options by their question. */
  method GroupPicks(qs: seq<Question>, flat: seq<Pos>, picks: seq<nat>) returns (per_question: seq<seq<string>>)
    requires forall k :: 0 <= k < |flat| ==> IsOption(qs, flat[k])
    requires forall k :: 0 <= k < |picks| ==> 1 <= picks[k] <= |flat|
    ensures |per_question| == |qs|
    ensures forall q :: 0 <= q < |qs| ==> per_question[q] == Chosen(qs, flat, picks, q)
  {
    per_question := seq(|qs|, _ => []);
    for k := 0 to |picks|
      invariant |per_question| == |qs|
      invariant forall q :: 0 <= q < |qs| ==> per_question[q] == Chosen(qs, flat, picks[..k], q)
    {
      var p := flat[picks[k] - 1];
      assert picks[..k + 1][..k] == picks[..k];
      per_question := per_question[p.q := per_question[p.q] + [qs[p.q].options[p.o].name]];
    }
    assert picks[..|picks|] == picks;
  }

  /** `answer_from_reply`. */
  method AnswerFromReply(qs: seq<Question>, reply: string) returns (a: Answer)
    ensures Answers(qs, reply, a)
  {
    var flat := FlatOptions(qs);
    var picks := Picks(reply, |flat|);
    if picks == [] {
      return FreeText(TrimStart(TrimEnd(reply)));
    }
    var per_question := GroupPicks(qs, flat, picks);
    var lines := [];
    for q := 0 to |qs|
      invariant |lines| == q
      invariant forall k :: 0 <= k < q ==> lines[k] == AnswerLine(Title(qs[k]), per_question[k])
    {
      lines := lines + [AnswerLine(Title(qs[q]), per_question[q])];
    }
    a := Grouped(lines);
  }

  function TotalChosen(qs: seq<Question>, flat: seq<Pos>, picks: seq<nat>, upTo: nat): nat
    requires forall k :: 0 <= k < |flat| ==> IsOption(qs, flat[k])
    requires forall k :: 0 <= k < |picks| ==> 1 <= picks[k] <= |flat|
  {
    if upTo == 0 then 0 else TotalChosen(qs, flat, picks, upTo - 1) + |Chosen(qs, flat, picks, upTo - 1)|
  }

  lemma {:induction false} OneMoreChosen(qs: seq<Question>, flat: seq<Pos>, picks: seq<nat>, upTo: nat)
    requires forall k :: 0 <= k < |flat| ==> IsOption(qs, flat[k])
    requires forall k :: 0 <= k < |picks| ==> 1 <= picks[k] <= |flat|
    requires picks != []
    ensures var n := |picks| - 1;
            TotalChosen(qs, flat, picks, upTo) ==
            TotalChosen(qs, flat, picks[..n], upTo) + (if flat[picks[n] - 1].q < upTo then 1 else 0)
  {
    if upTo > 0 {
      OneMoreChosen(qs, flat, picks, upTo - 1);
    }
  }

  /** No pick is lost and none is invented: the questions together hold as many labels as there were picks. */
  lemma {:induction false} NoPickLost(qs: seq<Question>, flat: seq<Pos>, picks: seq<nat>)
    requires forall k :: 0 <= k < |flat| ==> IsOption(qs, flat[k])
    requires forall k :: 0 <= k < |picks| ==> 1 <= picks[k] <= |flat|
    ensures TotalChosen(qs, flat, picks, |qs|) == |picks|
  {
    if picks == [] {
      NothingChosen(qs, flat, |qs|);
    } else {
      var n := |picks| - 1;
      NoPickLost(qs, flat, picks[..n]);
      OneMoreChosen(qs, flat, picks, |qs|);
    }
  }

  lemma {:induction false} NothingChosen(qs: seq<Question>, flat: seq<Pos>, upTo: nat)
    requires forall k :: 0 <= k < |flat| ==> IsOption(qs, flat[k])
    ensures TotalChosen(qs, flat, [], upTo) == 0
  {
    if upTo > 0 {
      NothingChosen(qs, flat, upTo - 1);
    }
  }

  // -- the round trip from the printed numbers to the answer ----------------------------------------------

  /** How many options the questions before question `q` have. */
  function Before(qs: seq<Question>, q: nat): nat
    requires q <= |qs|
  {
    if q == 0 then 0 else Before(qs, q - 1) + |qs[q - 1].options|
  }

  /** The numbering gives question `q` the numbers after those of the questions before it. */
  lemma {:induction false} FlatAt(qs: seq<Question>, k: nat)
    requires k < |Flat(qs)|
    ensures var p := Flat(qs)[k]; IsOption(qs, p) && k == Before(qs, p.q) + p.o
  {
    var n := |qs| - 1;
    FlatLength(qs[..n]);
    BeforePrefix(qs, n, n);
    if k < |Flat(qs[..n])| {
      FlatAt(qs[..n], k);
      BeforePrefix(qs, n, Flat(qs)[k].q);
    }
  }

  lemma {:induction false} FlatLength(qs: seq<Question>)
    ensures |Flat(qs)| == Before(qs, |qs|)
  {
    if qs != [] {
      FlatLength(qs[..|qs| - 1]);
      BeforePrefix(qs, |qs| - 1, |qs| - 1);
    }
  }

  lemma {:induction false} BeforePrefix(qs: seq<Question>, n: nat, q: nat)
    requires q <= n <= |qs|
    ensures Before(qs[..n], q) == Before(qs, q)
  {
    if q > 0 {
      BeforePrefix(qs, n, q - 1);
    }
  }

  lemma {:induction false} BeforeGrows(qs: seq<Question>, a: nat, b: nat)
    requires a < b <= |qs|
    ensures Before(qs, a) + |qs[a].options| <= Before(qs, b)
  {
    if a + 1 < b {
      BeforeGrows(qs, a, b - 1);
    }
  }

  /** The number `n` is one of question `q`'s. */
  predicate IsNumberOf(qs: seq<Question>, q: nat, n: nat)
    requires q < |qs|
  {
    Before(qs, q) < n <= Before(qs, q) + |qs[q].options|
  }

  lemma {:induction false} NumberBelongs(qs: seq<Question>, n: nat, q: nat)
    requires 1 <= n <= |Flat(qs)| && q < |qs|
    ensures Flat(qs)[n - 1].q == q <==> IsNumberOf(qs, q, n)
  {
    FlatAt(qs, n - 1);
    var p := Flat(qs)[n - 1];
    if p.q < q {
      BeforeGrows(qs, p.q, q);
    } else if q < p.q {
      BeforeGrows(qs, q, p.q);
    }
  }

  /** The labels printed beside those of the numbers `ns` that are question `q`'s, in order. */
  function Labels(qs: seq<Question>, shown: seq<Line>, ns: seq<nat>, q: nat): seq<string>
    requires q < |qs| && forall l :: l in shown ==> l.OptionLine?
    requires forall k :: 0 <= k < |ns| ==> 1 <= ns[k] <= |shown|
  {
    if ns == [] then
      []
    else
      (if IsNumberOf(qs, q, ns[0]) then [shown[ns[0] - 1].name] else []) + Labels(qs, shown, ns[1..], q)
  }

  lemma {:induction false} LabelsAppend(qs: seq<Question>, shown: seq<Line>, ns: seq<nat>, n: nat, q: nat)
    requires q < |qs| && forall l :: l in shown ==> l.OptionLine?
    requires 1 <= n <= |shown| && forall k :: 0 <= k < |ns| ==> 1 <= ns[k] <= |shown|
    ensures Labels(qs, shown, ns + [n], q) ==
            Labels(qs, shown, ns, q) + if IsNumberOf(qs, q, n) then [shown[n - 1].name] else []
  {
    if ns == [] {
      assert [n][1..] == [] && ns + [n] == [n];
    } else {
      LabelsAppend(qs, shown, ns[1..], n, q);
      assert (ns + [n])[1..] == ns[1..] + [n];
    }
  }

  lemma {:induction false} ChosenAreLabels(qs: seq<Question>, shown: seq<Line>, ns: seq<nat>, q: nat)
    requires Numbered(qs, Flat(qs), shown) && q < |qs| && forall l :: l in shown ==> l.OptionLine?
    requires forall k :: 0 <= k < |ns| ==> 1 <= ns[k] <= |Flat(qs)|
    ensures Chosen(qs, Flat(qs), ns, q) == Labels(qs, shown, ns, q)
  {
    hide Flat, Labels, IsNumberOf, Numbered;
    if ns == [] {
      NoLabels(qs, shown, q);
    } else {
      var n := |ns| - 1;
      assert |shown| == |Flat(qs)| by { NumberedSize(qs, Flat(qs), shown); }
      NumberedAt(qs, Flat(qs), shown, ns[n] - 1);
      ChosenAreLabels(qs, shown, ns[..n], q);
      LabelsAppend(qs, shown, ns[..n], ns[n], q);
      assert ns == ns[..n] + [ns[n]];
      NumberBelongs(qs, ns[n], q);
    }
  }

  lemma NumberedSize(qs: seq<Question>, flat: seq<Pos>, shown: seq<Line>)
    requires Numbered(qs, flat, shown)
    ensures |shown| == |flat|
  {
  }

  lemma NumberedAt(qs: seq<Question>, flat: seq<Pos>, shown: seq<Line>, k: nat)
    requires Numbered(qs, flat, shown) && k < |shown|
    ensures |shown| == |flat| && IsOption(qs, flat[k]) && ShowsOption(qs, flat[k], k + 1, shown[k])
  {
  }

  lemma {:induction false} NoLabels(qs: seq<Question>, shown: seq<Line>, q: nat)
    requires q < |qs| && forall l :: l in shown ==> l.OptionLine?
    ensures Labels(qs, shown, [], q) == []
  {
  }

  lemma {:induction false} ShownAreOptions(qs: seq<Question>, shown: seq<Line>)
    requires Numbered(qs, Flat(qs), shown)
    ensures forall l :: l in shown ==> l.OptionLine?
  {
    forall l | l in shown ensures l.OptionLine? {
      var k :| 0 <= k < |shown| && shown[k] == l;
      assert ShowsOption(qs, Flat(qs)[k], k + 1, shown[k]);
    }
  }

  /**
   * The round trip: a reply that lists numbers printed beside some options, in whatever digit-free text, is answered
   * with every question under its header, or its text if it has none, and with the labels printed beside exactly those
   * of the numbers that are the question's, in reply order.
   */
  lemma {:induction false} ListedNumbersAnswered(qs: seq<Question>, shown: seq<Line>, ns: seq<nat>, seps: seq<string>,
                                                 tail: string, a: Answer)
    requires Numbered(qs, Flat(qs), shown) && |shown| <= 0xFFFF_FFFF_FFFF_FFFF
    requires Separated(ns, seps, tail)
    requires ns != [] && forall k :: 0 <= k < |ns| ==> 1 <= ns[k] <= |shown|
    requires Answers(qs, Listing(ns, seps) + tail, a)
    ensures a.Grouped? && |a.lines| == |qs| && forall l :: l in shown ==> l.OptionLine?
    ensures forall q :: 0 <= q < |qs| ==>
              && a.lines[q].title == (if qs[q].header.Some? then qs[q].header.value else qs[q].text)
              && a.lines[q].chosen == Labels(qs, shown, ns, q)
    ensures forall k :: 0 <= k < |ns| ==> shown[ns[k] - 1].OptionLine? && shown[ns[k] - 1].number == ns[k]
  {
    hide Chosen, Labels, Picks, Listing;
    ListingPicks(ns, seps, tail, |Flat(qs)|);
    ShownAreOptions(qs, shown);
    forall k | 0 <= k < |ns| ensures shown[ns[k] - 1].OptionLine? && shown[ns[k] - 1].number == ns[k] {
      NumberedAt(qs, Flat(qs), shown, ns[k] - 1);
    }
    forall q | 0 <= q < |qs| ensures Chosen(qs, Flat(qs), ns, q) == Labels(qs, shown, ns, q) {
      ChosenAreLabels(qs, shown, ns, q);
    }
  }

  /** In particular one bare number picks the label printed beside it, for its question and no other. */
  lemma {:induction false} OneNumberAnswered(qs: seq<Question>, shown: seq<Line>, n: nat, a: Answer)
    requires Numbered(qs, Flat(qs), shown) && 1 <= n <= |shown| <= 0xFFFF_FFFF_FFFF_FFFF
    requires Answers(qs, ShowNat(n), a)
    ensures a.Grouped? && |a.lines| == |qs| && shown[n - 1].OptionLine? && shown[n - 1].number == n
    ensures exists q :: && 0 <= q < |qs| && a.lines[q].chosen == [shown[n - 1].name]
                        && shown[n - 1].name in LabelsOf(qs[q])
                        && forall other :: 0 <= other < |qs| && other != q ==> a.lines[other].chosen == []
  {
    hide Picks, Answers, Chosen, Labels, Listing, Flat, Separated, ShowNat, IsNumberOf;
    ListingOfOne(n);
    ListedNumbersAnswered(qs, shown, [n], [[]], [], a);
    var p := Flat(qs)[n - 1];
    assert ShowsOption(qs, p, n, shown[n - 1]);
    assert qs[p.q].options[p.o].name in LabelsOf(qs[p.q]);
    forall q: nat | q < |qs| ensures a.lines[q].chosen == if q == p.q then [shown[n - 1].name] else [] {
      NumberBelongs(qs, n, q);
      LabelsOfOne(qs, shown, n, q);
    }
  }

  lemma {:induction false} ListingOfOne(n: nat)
    ensures Listing([n], [[]]) + [] == ShowNat(n)
    ensures Separated([n], [[]], [])
  {
    hide ShowNat;
    var seps: seq<string> := [[]];
    assert [n][..0] == [] && seps[..0] == [];
    assert Listing([n][..0], seps[..0]) == [];
  }

  lemma {:induction false} LabelsOfOne(qs: seq<Question>, shown: seq<Line>, n: nat, q: nat)
    requires q < |qs| && 1 <= n <= |shown| && forall l :: l in shown ==> l.OptionLine?
    ensures Labels(qs, shown, [n], q) == if IsNumberOf(qs, q, n) then [shown[n - 1].name] else []
  {
    assert [n][1..] == [];
  }

  function LabelsOf(q: Question): set<string> {
    set o | o in q.options :: o.name
  }

  /** A reply without a valid number is passed on as it is, but for the whitespace at both ends. */
  lemma {:induction false} FreeTextPassedOn(qs: seq<Question>, reply: string, a: Answer)
    requires Answers(qs, reply, a) && Picks(reply, |Flat(qs)|) == []
    ensures a.FreeText? && IsTrimmed(reply, a.reply)
  {
    TrimmingTrims(reply);
  }
}
