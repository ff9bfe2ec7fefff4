/** The question-and-answer protocol that fills in an entry's missing mood
    ratings, as functions of the ratings already present, the order in which the
    unset moods are visited, and the input lines. `Journal.Entry.PromptForMetadata`
    is proved to behave as `Session` says for the order it happens to pick. */
module Prompting {

  import opened Wrappers
  import EntryNames

  type uint8 = x: int | 0 <= x < 256

  /** The three settable rating fields. */
  datatype Mood = High | Low | Average

  function Prompt(m: Mood): string {
    match m
    case High => "High mood for the day? (1-5) "
    case Low => "Low mood for the day? (1-5) "
    case Average => "Average mood for the day? (1-5) "
  }

  /** What `fmt.Fprintln(w, "Unrecognized input")` writes. */
  const Unrecognized: string := "Unrecognized input\n"

  /** The entry's three mood fields; 0 means "not yet collected". */
  datatype Ratings = Ratings(high: uint8, low: uint8, average: uint8) {

    function Get(m: Mood): uint8 {
      match m
      case High => high
      case Low => low
      case Average => average
    }

    /** What the setter bound to `m` does. */
    function Set(m: Mood, v: uint8): (r: Ratings)
      ensures r.Get(m) == v
      ensures forall m' :: m' != m ==> r.Get(m') == Get(m')
    {
      match m
      case High => this.(high := v)
      case Low => this.(low := v)
      case Average => this.(average := v)
    }
  }

  /** The moods `prompts()` selects: those whose field is 0. */
  function Unset(r: Ratings): set<Mood> {
    set m | m in {High, Low, Average} && r.Get(m) == 0
  }

  predicate NoDuplicates(order: seq<Mood>) {
    forall i, j :: 0 <= i < j < |order| ==> order[i] != order[j]
  }

  /** `order` visits each mood of `ms` exactly once: one of the orders in which
      ranging over a Go map may produce its keys. */
  predicate IsOrdering(order: seq<Mood>, ms: set<Mood>) {
    NoDuplicates(order) && forall m :: m in order <==> m in ms
  }

  // ---------------------------------------------------------------------------
  // Input.

  /** The error a failed read reports: end of input or another I/O error. */
  datatype ReadError = EOF | IOError(code: int)

  /** What the reader will deliver: complete lines (without their '\n'), then
      the text after the last '\n' together with the error that ends the input. */
  datatype Input = Input(lines: seq<string>, tail: string, end: ReadError) {

    function Drop(k: nat): Input
      requires k <= |lines|
    {
      Input(lines[k..], tail, end)
    }
  }

  /** An input a line reader can deliver: no line and not the tail holds the
      delimiter '\n'. */
  predicate ValidInput(i: Input) {
    (forall l :: l in i.lines ==> '\n' !in l) && '\n' !in i.tail
  }

  /** `unicode.IsSpace`, the test `strings.TrimSpace` applies. */
  predicate IsSpaceRune(c: char) {
    || c == '\t' || c == '\n' || c as int == 0x0B || c as int == 0x0C || c == '\r' || c == ' '
    || c as int == 0x85 || c as int == 0xA0 || c as int == 0x1680
    || (0x2000 <= c as int <= 0x200A)
    || c as int == 0x2028 || c as int == 0x2029 || c as int == 0x202F
    || c as int == 0x205F || c as int == 0x3000
  }

  predicate AllSpaceRunes(s: string) {
    forall i :: 0 <= i < |s| ==> IsSpaceRune(s[i])
  }

  function TrimLeft(s: string): (r: string)
    ensures r == [] || !IsSpaceRune(r[0])
  {
    if s != [] && IsSpaceRune(s[0]) then TrimLeft(s[1..]) else s
  }

  function TrimRight(s: string): (r: string)
    ensures r == [] || !IsSpaceRune(r[|r| - 1])
  {
    if s != [] && IsSpaceRune(s[|s| - 1]) then TrimRight(s[..|s| - 1]) else s
  }

  /** `strings.TrimSpace`: the line without leading and trailing white space. */
  function TrimSpace(s: string): string {
    TrimRight(TrimLeft(s))
  }

  lemma {:induction false} TrimLeftDrops(s: string)
    ensures var r := TrimLeft(s); |r| <= |s| && r == s[|s| - |r|..] && AllSpaceRunes(s[..|s| - |r|])
    decreases |s|
  {
    if s != [] && IsSpaceRune(s[0]) {
      TrimLeftDrops(s[1..]);
      var r := TrimLeft(s);
      assert s[1..][|s| - 1 - |r|..] == s[|s| - |r|..];
      var k := |s| - |r|;
      forall i | 0 <= i < k ensures IsSpaceRune(s[..k][i]) {
        if i > 0 {
          assert s[..k][i] == s[1..][..k - 1][i - 1];
        }
      }
    }
  }

  lemma {:induction false} TrimRightDrops(s: string)
    ensures var r := TrimRight(s); |r| <= |s| && r == s[..|r|] && AllSpaceRunes(s[|r|..])
    decreases |s|
  {
    if s != [] && IsSpaceRune(s[|s| - 1]) {
      TrimRightDrops(s[..|s| - 1]);
      var r := TrimRight(s);
      assert s[..|s| - 1][..|r|] == s[..|r|];
      assert forall i :: |r| <= i < |s| - 1 ==> s[i] == s[..|s| - 1][i];
    }
  }

  /** Trimming removes white space from both ends and nothing else: the line is
      its trimmed text with runs of white space before and after it. */
  lemma TrimSpaceDrops(s: string)
    ensures exists i :: (0 <= i <= |s| - |TrimSpace(s)| &&
      s[i..i + |TrimSpace(s)|] == TrimSpace(s) &&
      AllSpaceRunes(s[..i]) && AllSpaceRunes(s[i + |TrimSpace(s)|..]))
  {
    var l := TrimLeft(s);
    TrimLeftDrops(s);
    TrimRightDrops(l);
    var r := TrimRight(l);
    var i := |s| - |l|;
    assert s[i..i + |r|] == r;
    assert s[i + |r|..] == l[|r|..];
  }

  lemma {:induction false} TrimLeftOf(a: string, t: string)
    requires AllSpaceRunes(a)
    requires t == [] || !IsSpaceRune(t[0])
    ensures TrimLeft(a + t) == t
    decreases |a|
  {
    if a == [] {
      assert a + t == t;
    } else {
      assert (a + t)[0] == a[0] && (a + t)[1..] == a[1..] + t;
      TrimLeftOf(a[1..], t);
    }
  }

  lemma {:induction false} TrimRightOf(t: string, b: string)
    requires AllSpaceRunes(b)
    requires t == [] || !IsSpaceRune(t[|t| - 1])
    ensures TrimRight(t + b) == t
    decreases |b|
  {
    if b == [] {
      assert t + b == t;
    } else {
      var s := t + b;
      assert s[|s| - 1] == b[|b| - 1] && s[..|s| - 1] == t + b[..|b| - 1];
      TrimRightOf(t, b[..|b| - 1]);
    }
  }

  /** Whatever white space surrounds a text without white space at its ends,
      trimming gives back exactly that text. */
  lemma TrimSpaceOf(a: string, t: string, b: string)
    requires AllSpaceRunes(a) && AllSpaceRunes(b)
    requires t == [] || (!IsSpaceRune(t[0]) && !IsSpaceRune(t[|t| - 1]))
    ensures TrimSpace(a + t + b) == t
  {
    if t == [] {
      assert a + t + b == a + b;
      TrimLeftOf(a + b, []);
      assert a + b + [] == a + b;
    } else {
      assert a + t + b == a + (t + b);
      TrimLeftOf(a, t + b);
      TrimRightOf(t, b);
    }
  }

  /** `ratingRegex` (`^[1-5]$`) and, when it matches, `strconv.ParseUint`: the
      rating a trimmed line gives, if any. */
  function ParseRating(t: string): (r: Option<uint8>)
    ensures r.Some? ==> 1 <= r.value <= 5 && t == [EntryNames.Digit(r.value)]
  {
    if |t| == 1 && EntryNames.IsDigit(t[0]) && 1 <= EntryNames.DigitValue(t[0]) <= 5 then Some(EntryNames.DigitValue(t[0])) else None
  }

  /** The rating that a line read by `ReadString` (so ending in '\n') gives. */
  function Answer(line: string): Option<uint8> {
    ParseRating(TrimSpace(line + "\n"))
  }

  // ---------------------------------------------------------------------------
  // One question, and a whole session.

  /** The prompt and rejection pairs written for `n` rejected lines. */
  function Retries(prompt: string, n: nat): seq<string> {
    if n == 0 then [] else [prompt, Unrecognized] + Retries(prompt, n - 1)
  }

  /** The pairs can equally be counted from the end. */
  lemma {:induction false} RetriesAppend(prompt: string, n: nat)
    ensures Retries(prompt, n + 1) == Retries(prompt, n) + [prompt, Unrecognized]
  {
    if n > 0 {
      RetriesAppend(prompt, n - 1);
      assert [prompt, Unrecognized] + (Retries(prompt, n - 1) + [prompt, Unrecognized])
        == ([prompt, Unrecognized] + Retries(prompt, n - 1)) + [prompt, Unrecognized];
    }
  }

  /** How asking about one mood ends: with a rating after reading `used` lines,
      or with the read error; and what was written meanwhile. */
  datatype Asked =
    | Answered(rating: uint8, used: nat, written: seq<string>)
    | Aborted(err: ReadError, written: seq<string>)

  /** The inner loop of `PromptForMetadata` for one mood, on the lines left. */
  function Ask(prompt: string, lines: seq<string>, end: ReadError): (a: Asked)
    ensures a.Answered? ==> 1 <= a.used <= |lines| && 1 <= a.rating <= 5
    ensures a.Aborted? ==> a.err == end
    decreases |lines|
  {
    if lines == [] then Aborted(end, [prompt])
    else match Answer(lines[0])
      case Some(v) => Answered(v, 1, [prompt])
      case None =>
        match Ask(prompt, lines[1..], end)
        case Answered(v, k, w) => Answered(v, k + 1, [prompt, Unrecognized] + w)
        case Aborted(e, w) => Aborted(e, [prompt, Unrecognized] + w)
  }

  /** A question that gets a rating wrote its prompt, then for every rejected
      line the rejection and the prompt again, and stopped at the first line
      that gives a rating, which it returns. */
  lemma {:induction false} AskAnsweredShape(prompt: string, lines: seq<string>, end: ReadError)
    requires Ask(prompt, lines, end).Answered?
    ensures var a := Ask(prompt, lines, end);
      && (forall i :: 0 <= i < a.used - 1 ==> Answer(lines[i]).None?)
      && Answer(lines[a.used - 1]) == Some(a.rating)
      && a.written == Retries(prompt, a.used - 1) + [prompt]
    decreases |lines|
  {
    if Answer(lines[0]).None? {
      var a' := Ask(prompt, lines[1..], end);
      assert a'.Answered?;
      AskAnsweredShape(prompt, lines[1..], end);
      var k := a'.used;
      assert Ask(prompt, lines, end) == Answered(a'.rating, k + 1, [prompt, Unrecognized] + a'.written);
      RetriesThenPrompt(prompt, k);
      RejectedShift(lines, k);
      assert lines[k] == lines[1..][k - 1];
    }
  }

  /** A question that hits the read error rejected every line, writing the
      prompt and the rejection for each, then the prompt once more. */
  lemma {:induction false} AskAbortedShape(prompt: string, lines: seq<string>, end: ReadError)
    requires Ask(prompt, lines, end).Aborted?
    ensures forall i :: 0 <= i < |lines| ==> Answer(lines[i]).None?
    ensures Ask(prompt, lines, end).written == Retries(prompt, |lines|) + [prompt]
    decreases |lines|
  {
    if lines != [] {
      var a' := Ask(prompt, lines[1..], end);
      assert Answer(lines[0]).None? && a'.Aborted?;
      AskAbortedShape(prompt, lines[1..], end);
      assert Ask(prompt, lines, end).written == [prompt, Unrecognized] + a'.written;
      RetriesThenPrompt(prompt, |lines|);
      RejectedShift(lines, |lines|);
    }
  }

  lemma RetriesThenPrompt(prompt: string, k: nat)
    requires k >= 1
    ensures Retries(prompt, k) + [prompt] == [prompt, Unrecognized] + (Retries(prompt, k - 1) + [prompt])
  {
  }

  /** A rejected first line in front of `k - 1` rejected lines makes `k`. */
  lemma RejectedShift(lines: seq<string>, k: nat)
    requires 1 <= k <= |lines| && Answer(lines[0]).None?
    requires forall i :: 0 <= i < k - 1 ==> Answer(lines[1..][i]).None?
    ensures forall i :: 0 <= i < k ==> Answer(lines[i]).None?
  {
    forall i | 0 <= i < k ensures Answer(lines[i]).None? {
      if i > 0 {
        assert lines[i] == lines[1..][i - 1];
      }
    }
  }

  /** The final ratings, the number of lines read, the strings written and the
      error returned (`None` for nil). */
  datatype Outcome = Outcome(ratings: Ratings, consumed: nat, written: seq<string>, err: Option<ReadError>)

  /** The outer loop of `PromptForMetadata`, visiting the moods in `order`. */
  function Session(r: Ratings, order: seq<Mood>, input: Input): (o: Outcome)
    ensures o.consumed <= |input.lines|
    decreases |order|
  {
    if order == [] then Outcome(r, 0, [], None)
    else match Ask(Prompt(order[0]), input.lines, input.end)
      case Aborted(e, w) => Outcome(r, |input.lines|, w, Some(e))
      case Answered(v, k, w) =>
        var o := Session(r.Set(order[0], v), order[1..], input.Drop(k));
        Outcome(o.ratings, k + o.consumed, w + o.written, o.err)
  }

  // ---------------------------------------------------------------------------
  // Which lines are accepted.

  /** A line is accepted when it is one digit 1-5 with any white space around
      it, and the rating is that digit's value. */
  lemma PaddedDigitAnswers(a: string, v: int, b: string)
    requires AllSpaceRunes(a) && AllSpaceRunes(b) && 1 <= v <= 5
    ensures Answer(a + [EntryNames.Digit(v)] + b) == Some(v)
  {
    assert AllSpaceRunes(b + "\n");
    assert a + [EntryNames.Digit(v)] + b + "\n" == a + [EntryNames.Digit(v)] + (b + "\n");
    TrimSpaceOf(a, [EntryNames.Digit(v)], b + "\n");
  }

  /** Conversely, an accepted line is exactly such a line. */
  lemma AnsweredLineIsPaddedDigit(line: string)
    requires Answer(line).Some?
    ensures exists i :: (0 <= i < |line| && line[i] == EntryNames.Digit(Answer(line).value) &&
      AllSpaceRunes(line[..i]) && AllSpaceRunes(line[i + 1..]))
  {
    var s := line + "\n";
    var t := TrimSpace(s);
    var v := Answer(line).value;
    TrimSpaceDrops(s);
    var i :| 0 <= i <= |s| - |t| && s[i..i + |t|] == t && AllSpaceRunes(s[..i]) && AllSpaceRunes(s[i + |t|..]);
    assert t == [EntryNames.Digit(v)];
    assert s[i] == t[0];
    PaddedSplit(line, i, EntryNames.Digit(v));
  }

  /** A character padded with white space in `line + "\n"` that is not the
      newline is padded with white space in `line`. */
  lemma PaddedSplit(line: string, i: nat, c: char)
    requires i < |line| + 1 && c != '\n'
    requires (line + "\n")[i] == c
    requires AllSpaceRunes((line + "\n")[..i]) && AllSpaceRunes((line + "\n")[i + 1..])
    ensures i < |line| && line[i] == c && AllSpaceRunes(line[..i]) && AllSpaceRunes(line[i + 1..])
  {
    var s := line + "\n";
    assert s[|line|] == '\n';
    assert line[..i] == s[..i];
    var rest, after := line[i + 1..], s[i + 1..];
    forall j | 0 <= j < |rest| ensures IsSpaceRune(rest[j]) {
      assert rest[j] == after[j];
    }
  }

  // ---------------------------------------------------------------------------
  // Properties of a session.

  /** A mood that is not visited keeps its value. */
  lemma {:induction false} SessionLeavesOthers(r: Ratings, order: seq<Mood>, input: Input, m: Mood)
    requires m !in order
    ensures Session(r, order, input).ratings.Get(m) == r.Get(m)
    decreases |order|
  {
    if order != [] {
      match Ask(Prompt(order[0]), input.lines, input.end)
      case Aborted(_, _) =>
      case Answered(v, k, _) =>
        SessionLeavesOthers(r.Set(order[0], v), order[1..], input.Drop(k), m);
    }
  }

  /** When no read fails, the result is nil and every visited mood ends up with a
      rating in 1..5. */
  lemma {:induction false} SessionSucceeds(r: Ratings, order: seq<Mood>, input: Input)
    requires Session(r, order, input).err == None
    ensures forall m :: m in order ==> 1 <= Session(r, order, input).ratings.Get(m) <= 5
    decreases |order|
  {
    if order != [] {
      match Ask(Prompt(order[0]), input.lines, input.end)
      case Answered(v, k, _) =>
        var r' := r.Set(order[0], v);
        SessionSucceeds(r', order[1..], input.Drop(k));
        if order[0] !in order[1..] {
          SessionLeavesOthers(r', order[1..], input.Drop(k), order[0]);
        }
        forall m | m in order ensures 1 <= Session(r, order, input).ratings.Get(m) <= 5 {
          if m != order[0] {
            assert m in order[1..];
          }
        }
    }
  }

  /** The moods before position `k` of `order` have ratings in 1..5 in `after`,
      and those from `k` on have the values they had in `before`. */
  predicate StoppedAt(before: Ratings, after: Ratings, order: seq<Mood>, k: int) {
    && 0 <= k < |order|
    && (forall i :: 0 <= i < k ==> 1 <= after.Get(order[i]) <= 5)
    && (forall i :: k <= i < |order| ==> after.Get(order[i]) == before.Get(order[i]))
  }

  /** When a read fails, the session returns that error after reading every
      line; the moods before the one being asked about have ratings in 1..5, and
      that one and those after it keep their values. */
  lemma {:induction false} SessionFails(r: Ratings, order: seq<Mood>, input: Input)
    requires NoDuplicates(order)
    requires Session(r, order, input).err.Some?
    ensures var o := Session(r, order, input);
      && o.err == Some(input.end)
      && o.consumed == |input.lines|
      && exists k :: StoppedAt(r, o.ratings, order, k)
    decreases |order|
  {
    var o := Session(r, order, input);
    match Ask(Prompt(order[0]), input.lines, input.end)
    case Aborted(_, _) =>
      assert StoppedAt(r, o.ratings, order, 0);
    case Answered(v, k, _) =>
      var r' := r.Set(order[0], v);
      var order' := order[1..];
      assert NoDuplicates(order') by {
        forall i, j | 0 <= i < j < |order'| ensures order'[i] != order'[j] {
          assert order'[i] == order[i + 1] && order'[j] == order[j + 1];
        }
      }
      SessionFails(r', order', input.Drop(k));
      assert o.ratings == Session(r', order', input.Drop(k)).ratings;
      var c :| StoppedAt(r', o.ratings, order', c);
      assert order[0] !in order' by {
        forall i | 0 <= i < |order'| ensures order'[i] != order[0] {
          assert order'[i] == order[i + 1];
        }
      }
      SessionLeavesOthers(r', order', input.Drop(k), order[0]);
      StoppedLater(r, r', o.ratings, order, c);
  }

  lemma StoppedLater(r: Ratings, r': Ratings, after: Ratings, order: seq<Mood>, c: int)
    requires |order| > 0 && order[0] !in order[1..]
    requires r'.Get(order[0]) == after.Get(order[0]) && 1 <= after.Get(order[0]) <= 5
    requires forall m :: m != order[0] ==> r'.Get(m) == r.Get(m)
    requires StoppedAt(r', after, order[1..], c)
    ensures StoppedAt(r, after, order, c + 1)
  {
    var order' := order[1..];
    forall i | 0 <= i < c + 1 ensures 1 <= after.Get(order[i]) <= 5 {
      if i > 0 {
        assert order[i] == order'[i - 1];
      }
    }
    forall i | c + 1 <= i < |order| ensures after.Get(order[i]) == r.Get(order[i]) {
      assert order[i] == order'[i - 1] && order[i] != order[0];
    }
  }

  /** With the moods visited being exactly the unset ones, a successful session
      leaves no mood unset and changes no mood that was already set. */
  lemma FillsEveryUnsetMood(r: Ratings, order: seq<Mood>, input: Input)
    requires IsOrdering(order, Unset(r))
    requires Session(r, order, input).err == None
    ensures var o := Session(r, order, input);
      && Unset(o.ratings) == {}
      && (forall m :: m in Unset(r) ==> 1 <= o.ratings.Get(m) <= 5)
      && (forall m :: m !in Unset(r) ==> o.ratings.Get(m) == r.Get(m))
  {
    var o := Session(r, order, input);
    SessionSucceeds(r, order, input);
    forall m | m !in Unset(r) ensures o.ratings.Get(m) == r.Get(m) {
      SessionLeavesOthers(r, order, input, m);
    }
    forall m | true ensures o.ratings.Get(m) != 0 {
      if m !in Unset(r) {
        assert m in {High, Low, Average};
      }
    }
  }

  /** A failed session leaves at least one of the moods it was asked to fill
      unset, and changes no mood that was set before. */
  lemma FailureLeavesAMoodUnset(r: Ratings, order: seq<Mood>, input: Input)
    requires IsOrdering(order, Unset(r))
    requires Session(r, order, input).err.Some?
    ensures var o := Session(r, order, input);
      && Unset(o.ratings) != {}
      && Unset(o.ratings) <= Unset(r)
      && (forall m :: m !in Unset(r) ==> o.ratings.Get(m) == r.Get(m))
  {
    var o := Session(r, order, input);
    SessionFails(r, order, input);
    var k :| StoppedAt(r, o.ratings, order, k);
    assert order[k] in order;
    assert order[k] in Unset(o.ratings);
    forall m | m !in Unset(r) ensures o.ratings.Get(m) == r.Get(m) {
      SessionLeavesOthers(r, order, input, m);
    }
    forall m | m in Unset(o.ratings) ensures m in Unset(r) {
      if m !in order {
        SessionLeavesOthers(r, order, input, m);
      }
    }
  }

  /** With nothing unset, a session reads nothing, writes nothing and succeeds. */
  lemma NothingToAsk(r: Ratings, order: seq<Mood>, input: Input)
    requires Unset(r) == {} && IsOrdering(order, Unset(r))
    ensures Session(r, order, input) == Outcome(r, 0, [], None)
  {
    NoMembersNoMoods(order);
  }

  lemma NoMembersNoMoods(order: seq<Mood>)
    ensures (forall m :: m !in order) ==> order == []
  {
    if order != [] {
      assert order[0] in order;
    }
  }

  /** Filling in is idempotent: after a successful session, a second one, in
      any order and on any input, reads nothing and writes nothing. */
  lemma SecondSessionIsQuiet(r: Ratings, order: seq<Mood>, input: Input, order2: seq<Mood>, input2: Input)
    requires IsOrdering(order, Unset(r))
    requires Session(r, order, input).err == None
    requires IsOrdering(order2, Unset(Session(r, order, input).ratings))
    ensures var o := Session(r, order, input);
      Session(o.ratings, order2, input2) == Outcome(o.ratings, 0, [], None)
  {
    FillsEveryUnsetMood(r, order, input);
    NothingToAsk(Session(r, order, input).ratings, order2, input2);
  }

  // ---------------------------------------------------------------------------
  // Facts the imperative loop is proved with.

  /** The three prompts are distinct, so a prompt identifies its mood. */
  lemma PromptInjective(a: Mood, b: Mood)
    ensures Prompt(a) == Prompt(b) <==> a == b
  {
    if a != b {
      assert |Prompt(a)| != |Prompt(b)|;
    }
  }

  /** The first `k` lines rejected and line `k` accepted: asking stops there. */
  lemma {:induction false} AskAnswered(prompt: string, lines: seq<string>, end: ReadError, k: nat, v: uint8)
    requires k < |lines| && Answer(lines[k]) == Some(v)
    requires forall i :: 0 <= i < k ==> Answer(lines[i]).None?
    ensures Ask(prompt, lines, end) == Answered(v, k + 1, Retries(prompt, k) + [prompt])
    decreases k
  {
    if k > 0 {
      forall i | 0 <= i < k - 1 ensures Answer(lines[1..][i]).None? {
        assert lines[1..][i] == lines[i + 1];
      }
      assert Answer(lines[0]).None?;
      AskAnswered(prompt, lines[1..], end, k - 1, v);
      assert Retries(prompt, k) + [prompt] == [prompt, Unrecognized] + (Retries(prompt, k - 1) + [prompt]);
    }
  }

  /** Every line rejected: asking ends with the read error. */
  lemma {:induction false} AskAborted(prompt: string, lines: seq<string>, end: ReadError)
    requires forall i :: 0 <= i < |lines| ==> Answer(lines[i]).None?
    ensures Ask(prompt, lines, end) == Aborted(end, Retries(prompt, |lines|) + [prompt])
    decreases |lines|
  {
    if lines != [] {
      forall i | 0 <= i < |lines| - 1 ensures Answer(lines[1..][i]).None? {
        assert lines[1..][i] == lines[i + 1];
      }
      assert Answer(lines[0]).None?;
      AskAborted(prompt, lines[1..], end);
      assert Retries(prompt, |lines|) + [prompt] == [prompt, Unrecognized] + (Retries(prompt, |lines| - 1) + [prompt]);
    }
  }

  /** Running one session after another that succeeded. */
  function Then(o1: Outcome, o2: Outcome): Outcome {
    Outcome(o2.ratings, o1.consumed + o2.consumed, o1.written + o2.written, o2.err)
  }

  lemma DropDrop(input: Input, k: nat, j: nat)
    requires k <= |input.lines| && j <= |input.lines| - k
    ensures input.Drop(k).Drop(j) == input.Drop(k + j)
  {
    assert input.lines[k..][j..] == input.lines[k + j..];
  }

  /** One step of a session whose first mood was answered. */
  lemma SessionStep(r: Ratings, order: seq<Mood>, input: Input)
    requires order != [] && Ask(Prompt(order[0]), input.lines, input.end).Answered?
    ensures var a := Ask(Prompt(order[0]), input.lines, input.end);
      Session(r, order, input) ==
        Then(Outcome(r, a.used, a.written, None), Session(r.Set(order[0], a.rating), order[1..], input.Drop(a.used)))
  {
  }

  lemma ThenAssociative(x: Outcome, y: Outcome, z: Outcome)
    ensures Then(Then(x, y), z) == Then(x, Then(y, z))
  {
    assert x.written + y.written + z.written == x.written + (y.written + z.written);
  }

  /** Visiting `done` and then `rest` is visiting `done`, and, if that
      succeeded, visiting `rest` with its ratings on the lines left over. */
  lemma {:induction false} SessionAppend(r: Ratings, done: seq<Mood>, rest: seq<Mood>, input: Input)
    requires Session(r, done, input).err == None
    ensures var o1 := Session(r, done, input);
      Session(r, done + rest, input) == Then(o1, Session(o1.ratings, rest, input.Drop(o1.consumed)))
    decreases |done|
  {
    if done == [] {
      assert done + rest == rest;
      assert input.Drop(0) == input;
    } else {
      FirstAnswered(r, done, input);
      var a := Ask(Prompt(done[0]), input.lines, input.end);
      var r', in' := r.Set(done[0], a.rating), input.Drop(a.used);
      var o' := Session(r', done[1..], in');
      SessionStep(r, done, input);
      SessionAppend(r', done[1..], rest, in');
      AppendStep(r, done, rest, input, a, r', in', o', Session(o'.ratings, rest, in'.Drop(o'.consumed)));
    }
  }

  /** The inductive step of `SessionAppend`, from its instance for `done[1..]`. */
  lemma AppendStep(r: Ratings, done: seq<Mood>, rest: seq<Mood>, input: Input,
                   a: Asked, r': Ratings, in': Input, o': Outcome, o2: Outcome)
    requires done != [] && a == Ask(Prompt(done[0]), input.lines, input.end) && a.Answered?
    requires r' == r.Set(done[0], a.rating) && in' == input.Drop(a.used)
    requires o' == Session(r', done[1..], in') && o'.err == None
    requires o2 == Session(o'.ratings, rest, in'.Drop(o'.consumed))
    requires Session(r', done[1..] + rest, in') == Then(o', o2)
    ensures var o1 := Session(r, done, input);
      Session(r, done + rest, input) == Then(o1, Session(o1.ratings, rest, input.Drop(o1.consumed)))
  {
    var x := Outcome(r, a.used, a.written, None);
    var o1 := Then(x, o');
    assert Session(r, done, input) == o1 by {
      SessionStep(r, done, input);
    }
    assert in'.Drop(o'.consumed) == input.Drop(o1.consumed) by {
      DropDrop(input, a.used, o'.consumed);
    }
    assert Session(r, done + rest, input) == Then(x, Then(o', o2)) by {
      SessionStepAppend(r, done, rest, input);
    }
    ThenAssociative(x, o', o2);
  }

  lemma FirstAnswered(r: Ratings, done: seq<Mood>, input: Input)
    requires done != [] && Session(r, done, input).err == None
    ensures Ask(Prompt(done[0]), input.lines, input.end).Answered?
  {
  }

  /** The first step of a session over `done + rest` is the first step of
      `done`. */
  lemma SessionStepAppend(r: Ratings, done: seq<Mood>, rest: seq<Mood>, input: Input)
    requires done != [] && Ask(Prompt(done[0]), input.lines, input.end).Answered?
    ensures var a := Ask(Prompt(done[0]), input.lines, input.end);
      Session(r, done + rest, input) ==
        Then(Outcome(r, a.used, a.written, None), Session(r.Set(done[0], a.rating), done[1..] + rest, input.Drop(a.used)))
  {
    var order := done + rest;
    assert order[0] == done[0] && order[1..] == done[1..] + rest;
    SessionStep(r, order, input);
  }

  /** After `done` succeeded, a next mood answered on the lines left extends
      the session by that answer. */
  lemma StepAnswered(r: Ratings, done: seq<Mood>, m: Mood, input: Input)
    requires Session(r, done, input).err == None
    requires var o1 := Session(r, done, input);
      Ask(Prompt(m), input.Drop(o1.consumed).lines, input.end).Answered?
    ensures var o1 := Session(r, done, input);
      var a := Ask(Prompt(m), input.Drop(o1.consumed).lines, input.end);
      Session(r, done + [m], input) ==
        Outcome(o1.ratings.Set(m, a.rating), o1.consumed + a.used, o1.written + a.written, None)
  {
    var o1 := Session(r, done, input);
    var in1 := input.Drop(o1.consumed);
    var a := Ask(Prompt(m), in1.lines, in1.end);
    var o2 := Session(o1.ratings, [m], in1);
    assert o2 == Outcome(o1.ratings.Set(m, a.rating), a.used, a.written, None) by {
      SessionStep(o1.ratings, [m], in1);
      assert [m][1..] == [];
    }
    SessionAppend(r, done, [m], input);
  }

  /** After `done` succeeded, a next mood whose question hits the read error
      ends the session with that error, whatever moods were still to come. */
  lemma StepAborted(r: Ratings, done: seq<Mood>, m: Mood, rest: seq<Mood>, input: Input)
    requires Session(r, done, input).err == None
    requires var o1 := Session(r, done, input);
      Ask(Prompt(m), input.Drop(o1.consumed).lines, input.end).Aborted?
    ensures var o1 := Session(r, done, input);
      var a := Ask(Prompt(m), input.Drop(o1.consumed).lines, input.end);
      Session(r, done + ([m] + rest), input) ==
        Outcome(o1.ratings, |input.lines|, o1.written + a.written, Some(input.end))
  {
    var o1 := Session(r, done, input);
    var in1 := input.Drop(o1.consumed);
    var a := Ask(Prompt(m), in1.lines, in1.end);
    var o2 := Session(o1.ratings, [m] + rest, in1);
    assert o2 == Outcome(o1.ratings, |in1.lines|, a.written, Some(input.end)) by {
      assert ([m] + rest)[0] == m;
      SessionStopped(o1.ratings, [m] + rest, in1);
    }
    SessionAppend(r, done, [m] + rest, input);
  }

  /** One step of a session whose first question hit the read error. */
  lemma SessionStopped(r: Ratings, order: seq<Mood>, input: Input)
    requires order != [] && Ask(Prompt(order[0]), input.lines, input.end).Aborted?
    ensures var a := Ask(Prompt(order[0]), input.lines, input.end);
      Session(r, order, input) == Outcome(r, |input.lines|, a.written, Some(a.err))
  {
  }

  lemma NoDuplicatesAppend(a: seq<Mood>, b: seq<Mood>)
    requires NoDuplicates(a) && NoDuplicates(b)
    requires forall m :: m in a ==> m !in b
    ensures NoDuplicates(a + b)
  {
    forall i, j | 0 <= i < j < |a + b| ensures (a + b)[i] != (a + b)[j] {
      if i < |a| && j >= |a| {
        assert (a + b)[i] == a[i] && a[i] in a;
        assert (a + b)[j] == b[j - |a|];
      } else if i >= |a| {
        assert (a + b)[i] == b[i - |a|] && (a + b)[j] == b[j - |a|];
      }
    }
  }
}
