/** The journal entry object. While prompting it reads from an `Input` (the
    lines a reader will deliver) and returns what it writes as a sequence of
    strings. `Entry.PromptForMetadata` is imperative, as in the program, and is
    proved to behave as `Prompting.Session` says for the visiting order it picks. */
module Journal {

  import opened Wrappers
  import opened Prompting
  import BodyWords
  import EntryNames

  type uint16 = x: int | 0 <= x < 0x1_0000

  /** `ReadString('\n')` on a buffered reader that has delivered `pos` lines of
      `input`: the next line with its '\n', or, once the lines are used up, the
      text after the last '\n' with the error that ends the input. */
  method ReadString(input: Input, pos: nat) returns (line: string, err: Option<ReadError>, next: nat)
    requires ValidInput(input) && pos <= |input.lines|
    ensures pos < |input.lines| ==> line == input.lines[pos] + "\n" && err == None && next == pos + 1
    ensures pos == |input.lines| ==> line == input.tail && err == Some(input.end) && next == pos
    ensures err == None <==> (line != [] && line[|line| - 1] == '\n')
    ensures forall i :: 0 <= i < |line| - 1 ==> line[i] != '\n'
  {
    if pos < |input.lines| {
      line, err, next := input.lines[pos] + "\n", None, pos + 1;
      assert input.lines[pos] in input.lines;
      assert forall i :: 0 <= i < |line| - 1 ==> line[i] == input.lines[pos][i];
    } else {
      line, err, next := input.tail, Some(input.end), pos;
    }
  }

  /** A journal entry: its front-matter fields, its body and its file path. */
  class Entry {
    var seconds: uint16
    var lowMood: uint8
    var highMood: uint8
    var averageMood: uint8
    var body: seq<BodyWords.byte>
    var path: string

    /** The entry `New` creates for a directory that has none for the day
        `now`: its path names that day, every other field is zero. */
    constructor(dir: string, now: EntryNames.Date)
      requires EntryNames.ValidDate(now)
      ensures path == EntryNames.EntryPath(dir, now)
      ensures seconds == 0 && Moods() == Ratings(0, 0, 0) && body == []
      ensures Date() == Some(now) && EntryNames.IsEntry(path)
    {
      seconds, lowMood, highMood, averageMood := 0, 0, 0, 0;
      body := [];
      path := EntryNames.EntryPath(dir, now);
      new;
      EntryNames.DateOfEntryPath(dir, now);
      EntryNames.EntryPathIsEntry(dir, now);
    }

    /** The three mood fields. */
    function Moods(): Ratings
      reads this
    {
      Ratings(highMood, lowMood, averageMood)
    }

    /** The words of the body: non-empty runs of non-space bytes that together
        hold every non-space byte, none when the body is blank. */
    function Words(): (ws: seq<seq<BodyWords.byte>>)
      reads this
      ensures forall i :: 0 <= i < |ws| ==> BodyWords.IsWord(ws[i])
      ensures BodyWords.Concat(ws) == BodyWords.Strip(body)
      ensures ws == [] <==> BodyWords.AllSpace(body)
    {
      BodyWords.ConcatWords(body);
      BodyWords.NoWordsIffBlank(body);
      BodyWords.Words(body)
    }

    /** The date the path's last element names, if it names one; such a name
        is always a recognised entry name. */
    function Date(): (d: Option<EntryNames.Date>)
      reads this
      ensures d.Some? ==> EntryNames.ValidDate(d.value)
      ensures d.Some? ==> EntryNames.IsEntry(EntryNames.Base(path))
    {
      var d := EntryNames.EntryDate(path);
      if d.Some? then
        EntryNames.ParsedNameIsEntry(EntryNames.Base(path));
        d
      else
        d
    }

    method SetLowMood(rating: uint8)
      modifies this
      ensures Moods() == old(Moods()).Set(Low, rating)
      ensures seconds == old(seconds) && body == old(body) && path == old(path)
    {
      lowMood := rating;
    }

    method SetHighMood(rating: uint8)
      modifies this
      ensures Moods() == old(Moods()).Set(High, rating)
      ensures seconds == old(seconds) && body == old(body) && path == old(path)
    {
      highMood := rating;
    }

    method SetAvgMood(rating: uint8)
      modifies this
      ensures Moods() == old(Moods()).Set(Average, rating)
      ensures seconds == old(seconds) && body == old(body) && path == old(path)
    {
      averageMood := rating;
    }

    /** Calls the setter that `prompts()` pairs with `m`'s prompt. */
    method SetMood(m: Mood, rating: uint8)
      modifies this
      ensures Moods() == old(Moods()).Set(m, rating)
      ensures seconds == old(seconds) && body == old(body) && path == old(path)
    {
      match m
      case High => SetHighMood(rating);
      case Low => SetLowMood(rating);
      case Average => SetAvgMood(rating);
    }

    /** `prompts()`: a prompt for each mood field still 0, mapped to that
        mood (standing for its setter). */
    method Prompts() returns (pr: map<string, Mood>)
      ensures forall m :: Prompt(m) in pr <==> m in Unset(Moods())
      ensures forall p :: p in pr ==> Prompt(pr[p]) == p
    {
      pr := map[];
      if highMood == 0 {
        pr := pr[Prompt(High) := High];
      }
      if lowMood == 0 {
        pr := pr[Prompt(Low) := Low];
      }
      if averageMood == 0 {
        pr := pr[Prompt(Average) := Average];
      }
      forall m ensures Prompt(m) in pr <==> m in Unset(Moods()) {
        forall m' {
          PromptInjective(m, m');
        }
      }
    }

    /** Asks for each unset mood in turn, in the order `order` (a Go map's,
        so any order of the unset moods), until a line gives a rating; stops at
        the first read error and returns it, and otherwise returns nil. Also
        returns how many lines were read and what was written. */
    method PromptForMetadata(input: Input) returns (err: Option<ReadError>, read: nat, written: seq<string>, ghost order: seq<Mood>)
      requires ValidInput(input)
      modifies this
      ensures IsOrdering(order, Unset(old(Moods())))
      ensures var o := Session(old(Moods()), order, input);
        && Moods() == o.ratings
        && err == o.err
        && read == o.consumed
        && written == o.written
      ensures seconds == old(seconds) && body == old(body) && path == old(path)
    {
      ghost var r0 := Moods();
      var pr := Prompts();
      var keys := pr.Keys;
      read, written := 0, [];
      ghost var done: seq<Mood> := [];
      while keys != {}
        invariant keys <= pr.Keys
        invariant Pending(r0, done, keys)
        invariant Session(r0, done, input) == Outcome(Moods(), read, written, None)
        invariant seconds == old(seconds) && body == old(body) && path == old(path)
        decreases keys
      {
        var prompt :| prompt in keys;
        var m := pr[prompt];
        PendingStep(r0, done, keys, m);
        keys := keys - {prompt};
        ghost var before := Outcome(Moods(), read, written, None);
        var readErr, next, out := Fill(m, input, read);
        written := written + out;
        if readErr.Some? {
          err := readErr;
          read := next;
          ghost var rest := Listing(keys);
          order := done + ([m] + rest);
          PendingAborted(r0, done, m, keys);
          StepAborted(r0, done, m, rest, input);
          return;
        }
        StepAnswered(r0, done, m, input);
        read := next;
        done := done + [m];
      }
      err := None;
      order := done;
      PendingFinished(r0, done);
    }

    /** One round of the outer loop of `PromptForMetadata` for the mood `m`,
        after `pos` lines have been read: writes the prompt and reads a line
        until a line gives a rating, which goes to `m`'s setter, writing the
        rejection after each other line; a read error ends the round. It does
        what `Ask` says. */
    method Fill(m: Mood, input: Input, pos: nat) returns (err: Option<ReadError>, next: nat, out: seq<string>)
      requires ValidInput(input) && pos <= |input.lines|
      modifies this
      ensures var a := Ask(Prompt(m), input.lines[pos..], input.end);
        && (a.Answered? ==> err == None && Moods() == old(Moods()).Set(m, a.rating) && next == pos + a.used)
        && (a.Aborted? ==> err == Some(a.err) && Moods() == old(Moods()) && next == |input.lines|)
        && out == a.written
      ensures seconds == old(seconds) && body == old(body) && path == old(path)
    {
      var prompt := Prompt(m);
      ghost var lines := input.lines[pos..];
      next, out := pos, [];
      while true
        invariant pos <= next <= |input.lines|
        invariant forall i :: 0 <= i < next - pos ==> Answer(lines[i]).None?
        invariant out == Retries(prompt, next - pos)
        invariant Moods() == old(Moods())
        invariant seconds == old(seconds) && body == old(body) && path == old(path)
        decreases |input.lines| - next
      {
        out := out + [prompt];
        var line, readErr, after := ReadString(input, next);
        if readErr.Some? {
          AskAborted(prompt, lines, input.end);
          return readErr, after, out;
        }
        var rating := ParseRating(TrimSpace(line));
        if rating.Some? {
          SetMood(m, rating.value);
          AskAnswered(prompt, lines, input.end, next - pos, rating.value);
          return None, after, out;
        }
        out := out + [Unrecognized];
        RetriesAppend(prompt, next - pos);
        next := after;
      }
    }
  }

  /** The loop's bookkeeping: `done` lists the moods already filled in, each
      once, and the prompts in `keys` are those of the other unset moods. */
  ghost predicate Pending(r0: Ratings, done: seq<Mood>, keys: set<string>) {
    && NoDuplicates(done)
    && (forall m :: m in Unset(r0) <==> m in done || Prompt(m) in keys)
    && (forall m :: m in done ==> Prompt(m) !in keys)
  }

  lemma PendingStep(r0: Ratings, done: seq<Mood>, keys: set<string>, m: Mood)
    requires Pending(r0, done, keys) && Prompt(m) in keys
    ensures Pending(r0, done + [m], keys - {Prompt(m)})
  {
    forall m' ensures Prompt(m') == Prompt(m) <==> m' == m {
      PromptInjective(m', m);
    }
    NoDuplicatesAppend(done, [m]);
  }

  lemma PendingFinished(r0: Ratings, done: seq<Mood>)
    requires Pending(r0, done, {})
    ensures IsOrdering(done, Unset(r0))
  {
  }

  /** Stopping at `m`: the moods done, then `m`, then those still to do, are
      an order of all the moods that were unset. */
  lemma PendingAborted(r0: Ratings, done: seq<Mood>, m: Mood, keys: set<string>)
    requires Pending(r0, done + [m], keys)
    ensures IsOrdering(done + ([m] + Listing(keys)), Unset(r0))
  {
    var rest := Listing(keys);
    assert done + [m] + rest == done + ([m] + rest);
    assert NoDuplicates(done + [m]);
    NoDuplicatesAppend(done + [m], rest);
  }

  /** The moods whose prompts are in `keys`, in some fixed order. */
  ghost function Listing(keys: set<string>): (order: seq<Mood>)
    ensures NoDuplicates(order)
    ensures forall m :: m in order <==> Prompt(m) in keys
  {
    ListingHasAll(keys);
    (if Prompt(High) in keys then [High] else []) + (if Prompt(Low) in keys then [Low] else [])
      + (if Prompt(Average) in keys then [Average] else [])
  }

  lemma ListingHasAll(keys: set<string>)
    ensures var order := (if Prompt(High) in keys then [High] else [])
      + (if Prompt(Low) in keys then [Low] else [])
      + (if Prompt(Average) in keys then [Average] else []);
      forall m :: m in order <==> Prompt(m) in keys
  {
    var order := (if Prompt(High) in keys then [High] else [])
      + (if Prompt(Low) in keys then [Low] else [])
      + (if Prompt(Average) in keys then [Average] else []);
    forall m ensures m in order <==> Prompt(m) in keys {
      match m
      case High =>
      case Low =>
      case Average =>
    }
  }
}
