/** Concrete runs of the model on small inputs. */
module Scenarios {

  import opened Wrappers
  import opened Prompting
  import BodyWords
  import EntryNames

  /** A line holding just a digit 1-5 gives that digit's value. */
  lemma DigitLine(v: int)
    requires 1 <= v <= 5
    ensures Answer([EntryNames.Digit(v)]) == Some(v)
  {
    PaddedDigitAnswers("", v, "");
    assert "" + [EntryNames.Digit(v)] + "" == [EntryNames.Digit(v)];
  }

  /** With every mood unset and the lines "3", "4", "2" to read, the i-th mood
      visited gets the i-th digit, one prompt is written per mood and nothing
      is rejected, whichever order the moods are visited in. */
  lemma FillInThreeLines(order: seq<Mood>)
    requires IsOrdering(order, {High, Low, Average})
    ensures |order| == 3
    ensures var o := Session(Ratings(0, 0, 0), order, Input(["3", "4", "2"], "", EOF));
      && o.err == None && o.consumed == 3
      && o.ratings.Get(order[0]) == 3 && o.ratings.Get(order[1]) == 4 && o.ratings.Get(order[2]) == 2
      && o.written == [Prompt(order[0]), Prompt(order[1]), Prompt(order[2])]
  {
    ThreeMoods(order);
    var x, y, z := order[0], order[1], order[2];
    assert x != y && x != z && y != z;
    var in0 := Input(["3", "4", "2"], "", EOF);
    assert order[1..] == [y, z];
    assert in0.Drop(1) == Input(["4", "2"], "", EOF);
    var r1 := Ratings(0, 0, 0).Set(x, 3);
    var r3 := r1.Set(y, 4).Set(z, 2);
    assert r3.Get(x) == 3 && r3.Get(y) == 4 && r3.Get(z) == 2;
    var o := Session(r1, [y, z], Input(["4", "2"], "", EOF));
    assert o == Outcome(r3, 2, [Prompt(y), Prompt(z)], None) by {
      LastTwoLines(r1, y, z);
    }
    assert [Prompt(x)] + o.written == [Prompt(x), Prompt(y), Prompt(z)];
    assert Session(Ratings(0, 0, 0), order, in0) == Outcome(r3, 3, [Prompt(x), Prompt(y), Prompt(z)], None) by {
      FirstLineAnswers(Ratings(0, 0, 0), order, in0, 3);
    }
  }

  lemma LastTwoLines(r: Ratings, y: Mood, z: Mood)
    ensures Session(r, [y, z], Input(["4", "2"], "", EOF))
      == Outcome(r.Set(y, 4).Set(z, 2), 2, [Prompt(y), Prompt(z)], None)
  {
    var in1 := Input(["4", "2"], "", EOF);
    var in2 := Input(["2"], "", EOF);
    assert in1.Drop(1) == in2 && [y, z][1..] == [z];
    assert in2.Drop(1) == Input([], "", EOF) && [z][1..] == [];
    FirstLineAnswers(r.Set(y, 4), [z], in2, 2);
    FirstLineAnswers(r, [y, z], in1, 4);
  }

  /** The first mood of `order` takes the rating on the first line. */
  lemma FirstLineAnswers(r: Ratings, order: seq<Mood>, input: Input, v: int)
    requires order != [] && input.lines != [] && 1 <= v <= 5 && input.lines[0] == [EntryNames.Digit(v)]
    ensures var o := Session(r.Set(order[0], v), order[1..], input.Drop(1));
      Session(r, order, input) == Outcome(o.ratings, 1 + o.consumed, [Prompt(order[0])] + o.written, o.err)
  {
    DigitLine(v);
    AskAnswered(Prompt(order[0]), input.lines, input.end, 0, v);
    SessionStep(r, order, input);
  }

  /** An ordering of the three moods has exactly three elements. */
  lemma ThreeMoods(order: seq<Mood>)
    requires IsOrdering(order, {High, Low, Average})
    ensures |order| == 3
  {
    assert High in order && Low in order && Average in order;
    var h :| 0 <= h < |order| && order[h] == High;
    var l :| 0 <= l < |order| && order[l] == Low;
    var a :| 0 <= a < |order| && order[a] == Average;
    AtMostThree(order);
  }

  lemma AtMostThree(order: seq<Mood>)
    ensures NoDuplicates(order) ==> |order| <= 3
  {
    if |order| > 3 {
      var a, b, c, d := order[0], order[1], order[2], order[3];
      assert a == b || a == c || a == d || b == c || b == d || c == d;
    }
  }

  /** A rejected line "x" before "5": the prompt, one rejection, the prompt
      again, and the rating 5 from the second line. */
  lemma CorrectionAfterBadLine(m: Mood)
    ensures Ask(Prompt(m), ["x", "5"], EOF) == Answered(5, 2, [Prompt(m), Unrecognized, Prompt(m)])
  {
    DigitLine(5);
    assert "" + "x" + "\n" == "x\n";
    TrimSpaceOf("", "x", "\n");
    assert "x" + "\n" == "x\n";
    assert Answer("x") == None;
    AskAnswered(Prompt(m), ["x", "5"], EOF, 1, 5);
    assert Retries(Prompt(m), 1) == [Prompt(m), Unrecognized];
  }

  /** The body "  hello   world\n" has the two words "hello" and "world". */
  lemma TwoWords()
    ensures var sp, nl := 32 as BodyWords.byte, 10 as BodyWords.byte;
      var hello: seq<BodyWords.byte> := [104, 101, 108, 108, 111];
      var world: seq<BodyWords.byte> := [119, 111, 114, 108, 100];
      BodyWords.Words([sp, sp] + hello + [sp, sp, sp] + world + [nl]) == [hello, world]
  {
    var sp, nl := 32 as BodyWords.byte, 10 as BodyWords.byte;
    var hello: seq<BodyWords.byte> := [104, 101, 108, 108, 111];
    var world: seq<BodyWords.byte> := [119, 111, 114, 108, 100];
    var gaps: seq<seq<BodyWords.byte>> := [[sp, sp], [sp, sp, sp], [nl]];
    var ws: seq<seq<BodyWords.byte>> := [hello, world];
    assert gaps[1..] == [[sp, sp, sp], [nl]] && ws[1..] == [world];
    assert gaps[1..][1..] == [[nl]] && |ws[1..][1..]| == 0;
    assert BodyWords.Assemble([[nl]], ws[1..][1..]) == [nl];
    assert BodyWords.Assemble(gaps[1..], ws[1..]) == [sp, sp, sp] + world + [nl];
    assert BodyWords.Assemble(gaps, ws) == [sp, sp] + hello + [sp, sp, sp] + world + [nl];
    assert BodyWords.Separates(gaps, ws);
    BodyWords.WordsCharacterised(BodyWords.Assemble(gaps, ws), ws);
  }
}
