/** `CleanXmlSource`: the normaliser applied to both the file text and the
    database text before they are compared. It is three regular-expression
    replacements, each a single left-to-right pass that deletes what it matches:
    every `\s` character, then every `<!--.*?-->`, then every `<\?.*?\?>`. */
module XmlClean {
  import opened Wrappers
  import opened Text

  const CommentOpen := "<!--"
  const CommentClose := "-->"
  const PiOpen := "<?"
  const PiClose := "?>"

  /** First pass: `Regex.Replace(xml, @"\s", "")`. */
  function StripWs(s: string): (r: string)
    ensures NoWs(r)
    ensures |r| <= |s|
    decreases |s|
  {
    if |s| == 0 then []
    else if IsWs(s[0]) then StripWs(s[1..])
    else [s[0]] + StripWs(s[1..])
  }

  /** The lazy `.*?` of a block pattern that starts matching at `from` can stop at
      `j`: the closer occurs at `j` and `.` (which never matches a newline) can
      cover everything in between. */
  predicate Closes(s: string, from: nat, j: nat, close: string)
  {
    from <= j && OccursAt(s, j, close) && forall k :: from <= k < j ==> s[k] != '\n'
  }

  /** No closer can be reached by a lazy `.*?` that starts matching at `from`. */
  ghost predicate Unreachable(s: string, from: nat, close: string)
  {
    forall j :: !Closes(s, from, j, close)
  }

  /** Where the lazy `.*?` stops: the nearest reachable closer, if any
      (`FindCloseSpec` states that it is the nearest). */
  function FindClose(s: string, from: nat, close: string): (r: Option<nat>)
    requires |close| > 0
    ensures r.Some? ==> from <= r.value && OccursAt(s, r.value, close)
    decreases |s| - from
  {
    if from + |close| > |s| then None
    else if OccursAt(s, from, close) then Some(from)
    else if s[from] == '\n' then None
    else FindClose(s, from + 1, close)
  }

  /** The lazy `.*?` stops at the nearest closer it can reach, and fails only when
      no closer can be reached. */
  lemma {:induction false} FindCloseSpec(s: string, from: nat, close: string)
    requires |close| > 0
    ensures var r := FindClose(s, from, close);
      && (r.Some? ==> Closes(s, from, r.value, close))
      && (r.Some? ==> forall j :: from <= j < r.value ==> !Closes(s, from, j, close))
      && (r.None? ==> forall j :: !Closes(s, from, j, close))
    decreases |s| - from
  {
    if from + |close| <= |s| && !OccursAt(s, from, close) && s[from] != '\n' {
      FindCloseSpec(s, from + 1, close);
      assert forall j :: Closes(s, from, j, close) ==> j == from || Closes(s, from + 1, j, close);
    }
  }

  /** The block of `open + ".*?" + close` that starts at `i`, if any, given as the
      index just past its closer: the opener must be at `i` and a closer reachable. */
  function BlockAt(s: string, open: string, close: string, i: nat): (r: Option<nat>)
    requires |open| > 0 && |close| > 0
    ensures r.Some? ==> i + |open| + |close| <= r.value <= |s|
  {
    if OccursAt(s, i, open) then
      match FindClose(s, i + |open|, close)
      case Some(j) => Some(j + |close|)
      case None => None
    else None
  }

  /** `Regex.Replace(s, open + ".*?" + close, "")`, resumed at index `i`. At each
      position the scan looks for a block starting there; a block is deleted and the
      scan resumes after its closer, otherwise the character is kept and the scan
      moves on by one. */
  function DeleteBlocksFrom(s: string, open: string, close: string, i: nat): (r: string)
    requires |open| > 0 && |close| > 0
    requires i <= |s|
    ensures |r| <= |s| - i
    decreases |s| - i
  {
    if i == |s| then []
    else
      var block := BlockAt(s, open, close, i);
      var next := if block.Some? then block.value else i + 1;
      (if block.Some? then [] else [s[i]]) + DeleteBlocksFrom(s, open, close, next)
  }

  /** One whole `Regex.Replace(s, open + ".*?" + close, "")`. */
  function DeleteBlocks(s: string, open: string, close: string): (r: string)
    requires |open| > 0 && |close| > 0
    ensures |r| <= |s|
  {
    DeleteBlocksFrom(s, open, close, 0)
  }

  /** `CleanXmlSource` (three passes, in this order). */
  function CleanXml(xml: string): (r: string)
    ensures |r| <= |xml|
  {
    var noWs := StripWs(xml);
    var noComments := DeleteBlocks(noWs, CommentOpen, CommentClose);
    DeleteBlocks(noComments, PiOpen, PiClose)
  }

  // ---------------------------------------------------------------------------
  // The whitespace pass

  /** The whitespace pass keeps the other characters in order, and every one of
      them: each non-whitespace character occurs as often as in the input. */
  lemma {:induction false} StripWsIsSubseq(s: string)
    ensures IsSubseq(StripWs(s), s)
    ensures forall c :: !IsWs(c) ==> multiset(StripWs(s))[c] == multiset(s)[c]
    decreases |s|
  {
    if |s| > 0 {
      StripWsIsSubseq(s[1..]);
      assert [s[0]] + s[1..] == s;
      assert multiset(s) == multiset{s[0]} + multiset(s[1..]);
      if IsWs(s[0]) {
        SubseqDropPrefix(StripWs(s[1..]), s[1..], [s[0]]);
      } else {
        assert ([s[0]] + StripWs(s[1..]))[1..] == StripWs(s[1..]);
        assert multiset(StripWs(s)) == multiset{s[0]} + multiset(StripWs(s[1..]));
      }
    }
  }

  /** Text without whitespace passes the first pass unchanged. */
  lemma {:induction false} StripWsOfPlain(s: string)
    requires NoWs(s)
    ensures StripWs(s) == s
    decreases |s|
  {
    if |s| > 0 {
      assert !IsWs(s[0]);
      assert NoWs(s[1..]) by {
        forall k | 0 <= k < |s[1..]| ensures !IsWs(s[1..][k]) {
          assert s[1..][k] == s[k + 1];
        }
      }
      StripWsOfPlain(s[1..]);
      assert [s[0]] + s[1..] == s;
    }
  }

  /** Whitespace-only text vanishes in the first pass. */
  lemma {:induction false} StripWsOfBlank(w: string)
    requires AllWs(w)
    ensures StripWs(w) == []
    decreases |w|
  {
    if |w| > 0 {
      assert IsWs(w[0]);
      assert AllWs(w[1..]) by {
        forall k | 0 <= k < |w[1..]| ensures IsWs(w[1..][k]) {
          assert w[1..][k] == w[k + 1];
        }
      }
      StripWsOfBlank(w[1..]);
    }
  }

  /** The first pass works character by character, so it distributes over concatenation. */
  lemma {:induction false} StripWsConcat(a: string, b: string)
    ensures StripWs(a + b) == StripWs(a) + StripWs(b)
    decreases |a|
  {
    if |a| == 0 {
      assert a + b == b;
    } else {
      assert (a + b)[0] == a[0];
      assert (a + b)[1..] == a[1..] + b;
      StripWsConcat(a[1..], b);
    }
  }

  // ---------------------------------------------------------------------------
  // The block passes

  /** A block pass only deletes characters. */
  lemma {:induction false} DeleteBlocksIsSubseq(s: string, open: string, close: string, i: nat)
    requires |open| > 0 && |close| > 0
    requires i <= |s|
    ensures IsSubseq(DeleteBlocksFrom(s, open, close, i), s[i..])
    decreases |s| - i
  {
    if i < |s| {
      var r := DeleteBlocksFrom(s, open, close, i);
      var block := BlockAt(s, open, close, i);
      if block.Some? {
        var e := block.value;
        assert r == DeleteBlocksFrom(s, open, close, e) by {
          assert r == [] + DeleteBlocksFrom(s, open, close, e);
        }
        DeleteBlocksIsSubseq(s, open, close, e);
        SubseqDropPrefix(r, s[e..], s[i..e]);
        assert s[i..e] + s[e..] == s[i..];
      } else {
        DeleteBlocksIsSubseq(s, open, close, i + 1);
        assert r[1..] == DeleteBlocksFrom(s, open, close, i + 1);
        assert s[i..][1..] == s[i + 1..];
      }
    }
  }

  /** Where no opener starts at or after `i`, the pass copies the rest of the text. */
  lemma {:induction false} DeleteBlocksWithoutOpener(s: string, open: string, close: string, i: nat)
    requires |open| > 0 && |close| > 0
    requires i <= |s|
    requires forall k :: i <= k ==> !OccursAt(s, k, open)
    ensures DeleteBlocksFrom(s, open, close, i) == s[i..]
    decreases |s| - i
  {
    if i < |s| {
      DeleteBlocksWithoutOpener(s, open, close, i + 1);
      assert s[i..] == [s[i]] + s[i + 1..];
    }
  }

  /** Where no closer occurs at or after `from`, the scan from any position whose
      closer search would start at or after `from` copies the rest of the text. */
  lemma {:induction false} DeleteBlocksNoCloserFrom(s: string, open: string, close: string, from: nat, i: nat)
    requires |open| > 0 && |close| > 0
    requires i <= |s| && from <= i + |open|
    requires forall k :: from <= k ==> !OccursAt(s, k, close)
    ensures DeleteBlocksFrom(s, open, close, i) == s[i..]
    decreases |s| - i
  {
    if i < |s| {
      assert Unreachable(s, i + |open|, close);
      FindCloseAbsent(s, i + |open|, close);
      assert BlockAt(s, open, close, i).None?;
      DeleteBlocksNoCloserFrom(s, open, close, from, i + 1);
      assert s[i..] == [s[i]] + s[i + 1..];
    }
  }

  /** Where no closer occurs anywhere, every opener stays in place and nothing fails. */
  lemma {:induction false} DeleteBlocksWithoutCloser(s: string, open: string, close: string, i: nat)
    requires |open| > 0 && |close| > 0
    requires i <= |s|
    requires forall k :: !OccursAt(s, k, close)
    ensures DeleteBlocksFrom(s, open, close, i) == s[i..]
    decreases |s| - i
  {
    if i < |s| {
      assert FindClose(s, i + |open|, close).None?;
      DeleteBlocksWithoutCloser(s, open, close, i + 1);
      assert s[i..] == [s[i]] + s[i + 1..];
    }
  }

  /** A position where no opener starts is copied to the output. */
  lemma DeleteBlocksCopies(s: string, open: string, close: string, i: nat)
    requires |open| > 0 && |close| > 0
    requires i < |s|
    requires !OccursAt(s, i, open)
    ensures DeleteBlocksFrom(s, open, close, i) == [s[i]] + DeleteBlocksFrom(s, open, close, i + 1)
  {
  }

  /** Copying the opener-free stretch `s[i..p]` ahead of the scan at `p`. */
  lemma {:induction false} DeleteBlocksSkipsTo(s: string, open: string, close: string, i: nat, p: nat)
    requires |open| > 0 && |close| > 0
    requires i <= p <= |s|
    requires forall k :: i <= k < p ==> !OccursAt(s, k, open)
    ensures DeleteBlocksFrom(s, open, close, i) == s[i..p] + DeleteBlocksFrom(s, open, close, p)
    decreases p - i
  {
    if i < p {
      var rest := DeleteBlocksFrom(s, open, close, p);
      DeleteBlocksCopies(s, open, close, i);
      DeleteBlocksSkipsTo(s, open, close, i + 1, p);
      calc {
        DeleteBlocksFrom(s, open, close, i);
        [s[i]] + DeleteBlocksFrom(s, open, close, i + 1);
        [s[i]] + (s[i + 1..p] + rest);
        ([s[i]] + s[i + 1..p]) + rest;
        { assert [s[i]] + s[i + 1..p] == s[i..p]; }
        s[i..p] + rest;
      }
    }
  }

  /** The lazy `.*?` stops at the first closer when no newline comes before it. */
  lemma FindCloseNearest(s: string, from: nat, j: nat, close: string)
    requires |close| > 0
    requires from <= j && OccursAt(s, j, close)
    requires forall k :: from <= k < j ==> s[k] != '\n' && !OccursAt(s, k, close)
    ensures FindClose(s, from, close) == Some(j)
  {
    FindCloseSpec(s, from, close);
    assert Closes(s, from, j, close);
  }

  /** With no closer it can reach from `from`, the lazy `.*?` finds nowhere to stop. */
  lemma FindCloseAbsent(s: string, from: nat, close: string)
    requires |close| > 0
    requires Unreachable(s, from, close)
    ensures FindClose(s, from, close).None?
  {
    FindCloseSpec(s, from, close);
  }

  /** An opener whose block closes at `j` is deleted through the closer. */
  lemma DeleteBlocksDeletes(s: string, open: string, close: string, p: nat, j: nat)
    requires |open| > 0 && |close| > 0
    requires p < |s|
    requires OccursAt(s, p, open)
    requires FindClose(s, p + |open|, close) == Some(j)
    ensures DeleteBlocksFrom(s, open, close, p) == DeleteBlocksFrom(s, open, close, j + |close|)
  {
    var next := j + |close|;
    assert BlockAt(s, open, close, p) == Some(next);
    assert DeleteBlocksFrom(s, open, close, p) == [] + DeleteBlocksFrom(s, open, close, next);
  }

  /** An opener with no closer reachable after it is copied like any other character. */
  lemma DeleteBlocksCopiesUnclosed(s: string, open: string, close: string, p: nat)
    requires |open| > 0 && |close| > 0
    requires p < |s|
    requires Unreachable(s, p + |open|, close)
    ensures DeleteBlocksFrom(s, open, close, p) == [s[p]] + DeleteBlocksFrom(s, open, close, p + 1)
  {
    FindCloseAbsent(s, p + |open|, close);
  }

  /** The leftmost opener at or after `i` is paired with the nearest closer that
      follows it (with no newline in between), and that whole block is deleted;
      the text before the opener is kept as it is. */
  lemma DeleteBlocksPairsNearest(s: string, open: string, close: string, i: nat, p: nat, j: nat)
    requires |open| > 0 && |close| > 0
    requires i <= p
    requires OccursAt(s, p, open)
    requires forall k :: i <= k < p ==> !OccursAt(s, k, open)
    requires p + |open| <= j && OccursAt(s, j, close)
    requires forall k :: p + |open| <= k < j ==> s[k] != '\n' && !OccursAt(s, k, close)
    ensures DeleteBlocksFrom(s, open, close, i) == s[i..p] + DeleteBlocksFrom(s, open, close, j + |close|)
  {
    assert DeleteBlocksFrom(s, open, close, p) == DeleteBlocksFrom(s, open, close, j + |close|) by {
      FindCloseNearest(s, p + |open|, j, close);
      DeleteBlocksDeletes(s, open, close, p, j);
    }
    DeleteBlocksSkipsTo(s, open, close, i, p);
  }

  /** When no closer occurs after the leftmost opener, nothing more is deleted:
      the rest of the text is kept as it is. */
  lemma {:induction false} DeleteBlocksKeepsUnclosed(s: string, open: string, close: string, i: nat, p: nat)
    requires |open| > 0 && |close| > 0
    requires i <= p
    requires OccursAt(s, p, open)
    requires forall k :: i <= k < p ==> !OccursAt(s, k, open)
    requires forall k :: p + |open| <= k ==> !OccursAt(s, k, close)
    ensures DeleteBlocksFrom(s, open, close, i) == s[i..]
  {
    DeleteBlocksNoCloserFrom(s, open, close, p + |open|, p);
    DeleteBlocksKeepsFrom(s, open, close, i, p);
  }

  /** When the scan from `p` copies the rest of the text and no opener comes
      before `p`, the scan from `i` copies the rest of the text too. */
  lemma DeleteBlocksKeepsFrom(s: string, open: string, close: string, i: nat, p: nat)
    requires |open| > 0 && |close| > 0
    requires i <= p <= |s|
    requires forall k :: i <= k < p ==> !OccursAt(s, k, open)
    requires DeleteBlocksFrom(s, open, close, p) == s[p..]
    ensures DeleteBlocksFrom(s, open, close, i) == s[i..]
  {
    DeleteBlocksSkipsTo(s, open, close, i, p);
    assert s[i..p] + s[p..] == s[i..];
  }

  // ---------------------------------------------------------------------------
  // The whole normaliser

  /** The cleaned text is the input with characters deleted. */
  lemma CleanXmlIsSubseq(xml: string)
    ensures IsSubseq(CleanXml(xml), xml)
  {
    var a := StripWs(xml);
    var b := DeleteBlocks(a, CommentOpen, CommentClose);
    StripWsIsSubseq(xml);
    DeleteBlocksIsSubseq(a, CommentOpen, CommentClose, 0);
    assert a[0..] == a;
    DeleteBlocksIsSubseq(b, PiOpen, PiClose, 0);
    assert b[0..] == b;
    SubseqTrans(b, a, xml);
    SubseqTrans(CleanXml(xml), b, xml);
  }

  /** The cleaned text contains no whitespace character. */
  lemma CleanXmlHasNoWs(xml: string)
    ensures NoWs(CleanXml(xml))
  {
    var a := StripWs(xml);
    var b := DeleteBlocks(a, CommentOpen, CommentClose);
    DeleteBlocksIsSubseq(a, CommentOpen, CommentClose, 0);
    assert a[0..] == a;
    SubseqKeepsNoWs(b, a);
    DeleteBlocksIsSubseq(b, PiOpen, PiClose, 0);
    assert b[0..] == b;
    SubseqKeepsNoWs(CleanXml(xml), b);
  }

  /** Text with no whitespace, no `<!--` and no `<?` is returned unchanged. */
  lemma CleanXmlOfPlain(xml: string)
    requires NoWs(xml)
    requires !Contains(xml, CommentOpen) && !Contains(xml, PiOpen)
    ensures CleanXml(xml) == xml
  {
    StripWsOfPlain(xml);
    assert forall k :: 0 <= k ==> !OccursAt(xml, k, CommentOpen);
    DeleteBlocksWithoutOpener(xml, CommentOpen, CommentClose, 0);
    assert forall k :: 0 <= k ==> !OccursAt(xml, k, PiOpen);
    assert xml[0..] == xml;
    DeleteBlocksWithoutOpener(xml, PiOpen, PiClose, 0);
  }

  /** The result depends only on the text with its whitespace removed. */
  lemma CleanXmlOfStripped(xml: string)
    ensures CleanXml(StripWs(xml)) == CleanXml(xml)
  {
    StripWsOfPlain(StripWs(xml));
  }

  /** Inserting whitespace anywhere (indentation, line breaks) does not change the result. */
  lemma CleanXmlIgnoresInsertedWs(a: string, w: string, b: string)
    requires AllWs(w)
    ensures CleanXml(a + w + b) == CleanXml(a + b)
  {
    StripWsConcat(a + w, b);
    StripWsConcat(a, w);
    StripWsOfBlank(w);
    StripWsConcat(a, b);
    assert StripWs(a + w + b) == StripWs(a + b);
  }

  /** Each pass is a single replace, so a second application can still shrink the
      text: the comment deleted from inside `<!<!--a-->--b-->` leaves `<!--b-->`,
      which is itself a comment. */
  lemma CleanXmlNotIdempotent(x: string, y: string)
    requires x == "<!<!--a-->--b-->" && y == "<!--b-->"
    ensures CleanXml(x) == y
    ensures CleanXml(y) == ""
  {
    CommentPassExample(x, y);
    CommentOnlyExample(y);
    PiPassExample(y);
    DeleteBlocksWithoutOpener("", PiOpen, PiClose, 0);
  }

  /** The comment pass of the example above. */
  lemma CommentPassExample(x: string, y: string)
    requires x == "<!<!--a-->--b-->" && y == "<!--b-->"
    ensures StripWs(x) == x
    ensures DeleteBlocks(x, CommentOpen, CommentClose) == y
  {
    ExampleFacts(x, y);
    StripWsOfPlain(x);
    CommentPassShape(x);
  }

  /** The shape of the first example, stated without its literal text. */
  lemma CommentPassShape(x: string)
    requires |x| >= 10
    requires !OccursAt(x, 0, CommentOpen) && !OccursAt(x, 1, CommentOpen)
    requires OccursAt(x, 2, CommentOpen) && OccursAt(x, 7, CommentClose)
    requires x[6] != '\n' && !OccursAt(x, 6, CommentClose)
    requires forall k :: 10 <= k ==> !OccursAt(x, k, CommentOpen)
    ensures DeleteBlocks(x, CommentOpen, CommentClose) == x[0..2] + x[10..]
  {
    DeleteBlocksPairsNearest(x, CommentOpen, CommentClose, 0, 2, 7);
    DeleteBlocksWithoutOpener(x, CommentOpen, CommentClose, 10);
  }

  /** `<!--b-->` is one whole comment. */
  lemma CommentOnlyExample(y: string)
    requires y == "<!--b-->"
    ensures StripWs(y) == y
    ensures DeleteBlocks(y, CommentOpen, CommentClose) == ""
  {
    assert StripWs(y) == y by {
      assert NoWs(y);
      StripWsOfPlain(y);
    }
    assert OccursAt(y, 0, CommentOpen) && OccursAt(y, 5, CommentClose);
    MismatchAt(y, 4, CommentClose, 0);
    DeleteBlocksPairsNearest(y, CommentOpen, CommentClose, 0, 0, 5);
    DeleteBlocksWithoutOpener(y, CommentOpen, CommentClose, 8);
  }

  /** `<!--b-->` holds no processing instruction. */
  lemma PiPassExample(y: string)
    requires y == "<!--b-->"
    ensures DeleteBlocks(y, PiOpen, PiClose) == y
  {
    assert forall k :: 0 <= k ==> !OccursAt(y, k, PiOpen) by {
      forall k | 0 <= k ensures !OccursAt(y, k, PiOpen) {
        if k < |y| {
          assert y[k] != '<' || y[k + 1] != '?';
          if y[k] != '<' { MismatchAt(y, k, PiOpen, 0); } else { MismatchAt(y, k, PiOpen, 1); }
        }
      }
    }
    DeleteBlocksWithoutOpener(y, PiOpen, PiClose, 0);
    assert y[0..] == y;
  }

  /** Where the openers and closers of `<!<!--a-->--b-->` are. */
  lemma ExampleFacts(x: string, y: string)
    requires x == "<!<!--a-->--b-->" && y == "<!--b-->"
    ensures NoWs(x)
    ensures !OccursAt(x, 0, CommentOpen) && !OccursAt(x, 1, CommentOpen)
    ensures OccursAt(x, 2, CommentOpen) && OccursAt(x, 7, CommentClose)
    ensures x[6] != '\n' && !OccursAt(x, 6, CommentClose)
    ensures forall k :: 10 <= k ==> !OccursAt(x, k, CommentOpen)
    ensures x[0..2] + x[10..] == y
  {
    ExampleNoWs(x);
    ExampleHead(x);
    ExampleTail(x, y);
  }

  /** The example text holds no whitespace. */
  lemma ExampleNoWs(x: string)
    requires x == "<!<!--a-->--b-->"
    ensures NoWs(x)
  {
  }

  /** The example's only comment opens at 2 and closes at 7. */
  lemma ExampleHead(x: string)
    requires x == "<!<!--a-->--b-->"
    ensures !OccursAt(x, 0, CommentOpen) && !OccursAt(x, 1, CommentOpen)
    ensures OccursAt(x, 2, CommentOpen) && OccursAt(x, 7, CommentClose)
    ensures x[6] != '\n' && !OccursAt(x, 6, CommentClose)
  {
    MismatchAt(x, 0, CommentOpen, 2);
    MismatchAt(x, 1, CommentOpen, 0);
    MismatchAt(x, 6, CommentClose, 0);
  }

  /** No opener after the example's comment, and what is left once it is gone. */
  lemma ExampleTail(x: string, y: string)
    requires x == "<!<!--a-->--b-->" && y == "<!--b-->"
    ensures forall k :: 10 <= k ==> !OccursAt(x, k, CommentOpen)
    ensures x[0..2] + x[10..] == y
  {
    forall k | 10 <= k ensures !OccursAt(x, k, CommentOpen) {
      if k < |x| {
        assert x[k] != '<';
        MismatchAt(x, k, CommentOpen, 0);
      }
    }
  }
}
