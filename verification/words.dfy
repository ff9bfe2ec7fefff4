/** Splitting an entry's body into words: the matches, left to right, of the
    regular expression `\S+` over the body's bytes. In Go's regexp syntax `\s` is
    exactly the five ASCII bytes tab, newline, form feed, carriage return and
    space, so a word is a maximal run of bytes outside that set (a vertical tab,
    or any byte of a multi-byte UTF-8 character, belongs to a word). */
module BodyWords {

  type byte = b: int | 0 <= b < 256

  /** Membership in the class `\s`. */
  predicate IsSpace(b: byte) {
    b == 9 || b == 10 || b == 12 || b == 13 || b == 32
  }

  predicate AllSpace(s: seq<byte>) {
    forall i :: 0 <= i < |s| ==> IsSpace(s[i])
  }

  /** A single match of `\S+`. */
  predicate IsWord(w: seq<byte>) {
    |w| > 0 && forall i :: 0 <= i < |w| ==> !IsSpace(w[i])
  }

  /** Length of the run of non-space bytes at the front of `s`. */
  function RunLength(s: seq<byte>): (n: nat)
    ensures n <= |s|
    ensures forall i :: 0 <= i < n ==> !IsSpace(s[i])
    ensures n < |s| ==> IsSpace(s[n])
  {
    if s == [] || IsSpace(s[0]) then 0 else 1 + RunLength(s[1..])
  }

  /** `Entry.Words`: every maximal run of non-space bytes, in order. */
  function Words(s: seq<byte>): (ws: seq<seq<byte>>)
    ensures forall i :: 0 <= i < |ws| ==> IsWord(ws[i])
    decreases |s|
  {
    if s == [] then []
    else if IsSpace(s[0]) then Words(s[1..])
    else
      var n := RunLength(s);
      [s[..n]] + Words(s[n..])
  }

  /** The words glued back together. */
  function Concat(ws: seq<seq<byte>>): seq<byte> {
    if ws == [] then [] else ws[0] + Concat(ws[1..])
  }

  /** The body with every space byte deleted. */
  function Strip(s: seq<byte>): seq<byte> {
    if s == [] then []
    else if IsSpace(s[0]) then Strip(s[1..])
    else [s[0]] + Strip(s[1..])
  }

  /** `gaps[0] + ws[0] + gaps[1] + ws[1] + ... + ws[k-1] + gaps[k]`. */
  function Assemble(gaps: seq<seq<byte>>, ws: seq<seq<byte>>): seq<byte>
    requires |gaps| == |ws| + 1
  {
    if ws == [] then gaps[0] else gaps[0] + ws[0] + Assemble(gaps[1..], ws[1..])
  }

  /** The gaps between words consist of space bytes only, and the gaps strictly
      between two words are non-empty (the first and the last may be empty). */
  predicate Separates(gaps: seq<seq<byte>>, ws: seq<seq<byte>>) {
    && |gaps| == |ws| + 1
    && (forall i :: 0 <= i < |gaps| ==> AllSpace(gaps[i]))
    && (forall i :: 0 < i < |ws| ==> gaps[i] != [])
    && (forall i :: 0 <= i < |ws| ==> IsWord(ws[i]))
  }

  /** The runs of space bytes around and between the words of `s`. */
  ghost function Gaps(s: seq<byte>): (gaps: seq<seq<byte>>)
    ensures |gaps| == |Words(s)| + 1
    ensures s != [] && IsSpace(s[0]) ==> gaps[0] != []
    decreases |s|
  {
    if s == [] then [[]]
    else if IsSpace(s[0]) then
      var g := Gaps(s[1..]);
      [[s[0]] + g[0]] + g[1..]
    else
      [[]] + Gaps(s[RunLength(s)..])
  }

  lemma {:induction false} StripAppend(a: seq<byte>, b: seq<byte>)
    ensures Strip(a + b) == Strip(a) + Strip(b)
    decreases |a|
  {
    if a == [] {
      assert a + b == b;
    } else {
      assert (a + b)[0] == a[0] && (a + b)[1..] == a[1..] + b;
      StripAppend(a[1..], b);
    }
  }

  lemma {:induction false} StripWord(w: seq<byte>)
    requires forall i :: 0 <= i < |w| ==> !IsSpace(w[i])
    ensures Strip(w) == w
    decreases |w|
  {
    if w != [] {
      StripWord(w[1..]);
    }
  }

  /** Gluing the words together gives back the body without its space bytes:
      no byte other than a space byte is lost, none is invented, none moves. */
  lemma {:induction false} ConcatWords(s: seq<byte>)
    ensures Concat(Words(s)) == Strip(s)
    decreases |s|
  {
    if s == [] {
    } else if IsSpace(s[0]) {
      ConcatWords(s[1..]);
    } else {
      var n := RunLength(s);
      ConcatWords(s[n..]);
      assert s == s[..n] + s[n..];
      StripAppend(s[..n], s[n..]);
      StripWord(s[..n]);
    }
  }

  /** A body yields no words exactly when it is empty or all space bytes. */
  lemma {:induction false} NoWordsIffBlank(s: seq<byte>)
    ensures Words(s) == [] <==> AllSpace(s)
    decreases |s|
  {
    if s != [] {
      NoWordsIffBlank(s[1..]);
      if !IsSpace(s[0]) {
        assert !AllSpace(s);
      }
    }
  }

  /** Soundness: the words of `s`, with the gaps between them, rebuild `s`
      exactly; so every word is a contiguous piece of the body and consecutive
      words are separated by at least one space byte. */
  lemma {:induction false} WordsRebuildBody(s: seq<byte>)
    ensures Separates(Gaps(s), Words(s))
    ensures Assemble(Gaps(s), Words(s)) == s
    decreases |s|
  {
    if s == [] {
    } else if IsSpace(s[0]) {
      WordsRebuildBody(s[1..]);
      RebuildAfterSpace(s);
    } else {
      WordsRebuildBody(s[RunLength(s)..]);
      RebuildAfterWord(s);
    }
  }

  lemma RebuildAfterSpace(s: seq<byte>)
    requires s != [] && IsSpace(s[0])
    requires Separates(Gaps(s[1..]), Words(s[1..]))
    requires Assemble(Gaps(s[1..]), Words(s[1..])) == s[1..]
    ensures Separates(Gaps(s), Words(s))
    ensures Assemble(Gaps(s), Words(s)) == s
  {
    var t := s[1..];
    var g, ws := Gaps(t), Words(t);
    UnfoldAtSpace(s);
    LayoutSpace([s[0]], g, ws);
    assert s == [s[0]] + t;
  }

  /** How `Gaps` and `Words` go on at a space byte. */
  lemma UnfoldAtSpace(s: seq<byte>)
    requires s != [] && IsSpace(s[0])
    ensures Gaps(s) == [[s[0]] + Gaps(s[1..])[0]] + Gaps(s[1..])[1..]
    ensures Words(s) == Words(s[1..])
    ensures AllSpace([s[0]])
  {
  }

  lemma RebuildAfterWord(s: seq<byte>)
    requires s != [] && !IsSpace(s[0])
    requires Separates(Gaps(s[RunLength(s)..]), Words(s[RunLength(s)..]))
    requires Assemble(Gaps(s[RunLength(s)..]), Words(s[RunLength(s)..])) == s[RunLength(s)..]
    ensures Separates(Gaps(s), Words(s))
    ensures Assemble(Gaps(s), Words(s)) == s
  {
    var n := RunLength(s);
    var t := s[n..];
    var g, ws := Gaps(t), Words(t);
    UnfoldAtWord(s);
    GapAfterWord(s, n, t);
    LayoutWord(s[..n], g, ws);
    SplitAt(s, n);
  }

  /** A word is followed by a space byte, so a word after it comes after a
      non-empty gap. */
  lemma GapAfterWord(s: seq<byte>, n: nat, t: seq<byte>)
    requires s != [] && !IsSpace(s[0]) && n == RunLength(s) && t == s[n..]
    ensures Words(t) != [] ==> Gaps(t)[0] != []
  {
    if Words(t) != [] {
      assert t != [] && t[0] == s[n];
    }
  }

  lemma SplitAt(s: seq<byte>, n: nat)
    requires n <= |s|
    ensures s == s[..n] + s[n..]
  {
  }

  /** How `Gaps` and `Words` go on at a word. */
  lemma UnfoldAtWord(s: seq<byte>)
    requires s != [] && !IsSpace(s[0])
    ensures Gaps(s) == [[]] + Gaps(s[RunLength(s)..])
    ensures Words(s) == [s[..RunLength(s)]] + Words(s[RunLength(s)..])
    ensures IsWord(s[..RunLength(s)])
  {
  }

  /** Space bytes in front of a layout join its first gap. */
  lemma LayoutSpace(x: seq<byte>, g: seq<seq<byte>>, ws: seq<seq<byte>>)
    requires AllSpace(x) && Separates(g, ws)
    ensures Separates([x + g[0]] + g[1..], ws)
    ensures Assemble([x + g[0]] + g[1..], ws) == x + Assemble(g, ws)
  {
    var g' := [x + g[0]] + g[1..];
    assert g'[0] == x + g[0] && g'[1..] == g[1..];
    forall i | 0 <= i < |g'| ensures AllSpace(g'[i]) {
      if i > 0 {
        assert g'[i] == g[i];
      }
    }
    forall i | 0 < i < |ws| ensures g'[i] != [] {
      assert g'[i] == g[i];
    }
  }

  /** A word in front of a layout whose first gap is non-empty (or which has no
      words) starts a new layout with an empty first gap. */
  lemma LayoutWord(w: seq<byte>, g: seq<seq<byte>>, ws: seq<seq<byte>>)
    requires IsWord(w) && Separates(g, ws)
    requires ws != [] ==> g[0] != []
    ensures Separates([[]] + g, [w] + ws)
    ensures Assemble([[]] + g, [w] + ws) == w + Assemble(g, ws)
  {
    var g', ws' := [[]] + g, [w] + ws;
    assert g'[1..] == g && ws'[1..] == ws;
    forall i | 0 <= i < |g'| ensures AllSpace(g'[i]) {
      if i > 0 {
        assert g'[i] == g[i - 1];
      }
    }
    forall i | 0 < i < |ws'| ensures g'[i] != [] {
      assert g'[i] == g[i - 1];
    }
    forall i | 0 <= i < |ws'| ensures IsWord(ws'[i]) {
      if i > 0 {
        assert ws'[i] == ws[i - 1];
      }
    }
  }

  lemma {:induction false} SkipSpace(g: seq<byte>, t: seq<byte>)
    requires AllSpace(g)
    ensures Words(g + t) == Words(t)
    decreases |g|
  {
    if g == [] {
      assert g + t == t;
    } else {
      assert (g + t)[0] == g[0] && (g + t)[1..] == g[1..] + t;
      SkipSpace(g[1..], t);
    }
  }

  lemma {:induction false} RunOfWord(w: seq<byte>, t: seq<byte>)
    requires forall i :: 0 <= i < |w| ==> !IsSpace(w[i])
    requires t == [] || IsSpace(t[0])
    ensures RunLength(w + t) == |w|
    decreases |w|
  {
    if w != [] {
      assert (w + t)[1..] == w[1..] + t;
      RunOfWord(w[1..], t);
    }
  }

  lemma TakeWord(w: seq<byte>, t: seq<byte>)
    requires IsWord(w)
    requires t == [] || IsSpace(t[0])
    ensures Words(w + t) == [w] + Words(t)
  {
    RunOfWord(w, t);
    assert (w + t)[..|w|] == w && (w + t)[|w|..] == t;
  }

  /** Uniqueness: any way of writing `s` as words separated by runs of space
      bytes is the one `Words` finds. With `WordsRebuildBody` this says that
      `Words(s)` is exactly the sequence of maximal non-space runs of `s`. */
  lemma {:induction false} WordsUnique(gaps: seq<seq<byte>>, ws: seq<seq<byte>>)
    requires Separates(gaps, ws)
    ensures Words(Assemble(gaps, ws)) == ws
    decreases |ws|
  {
    if ws == [] {
      NoWordsIffBlank(gaps[0]);
    } else {
      var rest := Assemble(gaps[1..], ws[1..]);
      assert Separates(gaps[1..], ws[1..]) by {
        forall i | 0 < i < |ws[1..]| ensures gaps[1..][i] != [] {
          assert gaps[1..][i] == gaps[i + 1];
        }
      }
      WordsUnique(gaps[1..], ws[1..]);
      if ws[1..] != [] {
        assert gaps[1] != [];
        assert rest == gaps[1] + ws[1] + Assemble(gaps[2..], ws[2..]) by {
          assert gaps[1..][1..] == gaps[2..] && ws[1..][1..] == ws[2..];
        }
        assert rest[0] == gaps[1][0];
      } else {
        assert rest == gaps[1];
      }
      assert IsWord(ws[0]);
      TakeWord(ws[0], rest);
      assert Assemble(gaps, ws) == gaps[0] + (ws[0] + rest);
      SkipSpace(gaps[0], ws[0] + rest);
    }
  }

  /** `ws` is the word list of `s` exactly when `s` can be laid out as those
      words with runs of space bytes around and between them. */
  lemma WordsCharacterised(s: seq<byte>, ws: seq<seq<byte>>)
    ensures Words(s) == ws <==> exists gaps :: Separates(gaps, ws) && Assemble(gaps, ws) == s
  {
    if Words(s) == ws {
      WordsRebuildBody(s);
      assert Separates(Gaps(s), ws) && Assemble(Gaps(s), ws) == s;
    }
    if exists gaps :: Separates(gaps, ws) && Assemble(gaps, ws) == s {
      var gaps :| Separates(gaps, ws) && Assemble(gaps, ws) == s;
      WordsUnique(gaps, ws);
    }
  }
}
