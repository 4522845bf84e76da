/** Character classes and sequence relations shared by the text passes. */
module Text {

  /** The .NET regular-expression class `\s` (without ECMAScript mode):
      `[\f\n\r\t\v\x85\p{Z}]`, where `\p{Z}` is the space, line and paragraph
      separators of Unicode. */
  predicate IsWs(c: char)
  {
    || c == ' ' || c == '\t' || c == '\n' || c == '\U{000B}' || c == '\U{000C}' || c == '\r'
    || c == '\U{0085}' || c == '\U{00A0}' || c == '\U{1680}'
    || ('\U{2000}' <= c <= '\U{200A}')
    || c == '\U{2028}' || c == '\U{2029}' || c == '\U{202F}' || c == '\U{205F}' || c == '\U{3000}'
  }

  /** No character of `s` is whitespace. */
  predicate NoWs(s: string)
  {
    forall k :: 0 <= k < |s| ==> !IsWs(s[k])
  }

  /** Every character of `s` is whitespace. */
  predicate AllWs(s: string)
  {
    forall k :: 0 <= k < |s| ==> IsWs(s[k])
  }

  /** `p` occurs in `s` starting at index `k`. */
  predicate OccursAt(s: string, k: int, p: string)
  {
    0 <= k && k + |p| <= |s| && s[k..k + |p|] == p
  }

  /** Ordinal substring test, as `string.Contains(string)`. */
  predicate Contains(s: string, p: string)
  {
    exists k :: 0 <= k <= |s| && OccursAt(s, k, p)
  }

  /** The ordinal substring test holds exactly when `s` splits around `p`. */
  lemma ContainsIffSplit(s: string, p: string)
    ensures Contains(s, p) <==> exists before, after :: s == before + p + after
  {
    if Contains(s, p) {
      var k :| 0 <= k <= |s| && OccursAt(s, k, p);
      assert s == s[..k] + p + s[k + |p|..];
    }
    if exists before, after :: s == before + p + after {
      var before, after :| s == before + p + after;
      assert s[|before|..|before| + |p|] == p;
      assert OccursAt(s, |before|, p);
    }
  }

  /** `a` is obtained from `b` by deleting characters. */
  predicate IsSubseq(a: string, b: string)
    decreases |b|
  {
    if |a| == 0 then true
    else if |b| == 0 then false
    else (a[0] == b[0] && IsSubseq(a[1..], b[1..])) || IsSubseq(a, b[1..])
  }

  /** Deleting a whole prefix keeps the subsequence relation. */
  lemma {:induction false} SubseqDropPrefix(a: string, b: string, c: string)
    requires IsSubseq(a, b)
    ensures IsSubseq(a, c + b)
    decreases |c|
  {
    if |c| == 0 {
      assert c + b == b;
    } else {
      SubseqDropPrefix(a, b, c[1..]);
      assert (c + b)[1..] == c[1..] + b;
    }
  }

  /** The subsequence relation is transitive. */
  lemma {:induction false} SubseqTrans(a: string, b: string, c: string)
    requires IsSubseq(a, b) && IsSubseq(b, c)
    ensures IsSubseq(a, c)
    decreases |c|
  {
    if |a| == 0 {
    } else if IsSubseq(b, c[1..]) {
      SubseqTrans(a, b, c[1..]);
    } else if a[0] == b[0] && IsSubseq(a[1..], b[1..]) {
      SubseqTrans(a[1..], b[1..], c[1..]);
    } else {
      SubseqTrans(a, b[1..], c[1..]);
    }
  }

  /** Taking one more element of a sequence appends that element. */
  lemma TakeOneMore<T>(s: seq<T>, i: nat)
    requires i < |s|
    ensures s[..i + 1] == s[..i] + [s[i]]
  {
  }

  /** One mismatching character rules out an occurrence. */
  lemma MismatchAt(s: string, k: int, p: string, m: nat)
    requires 0 <= k && m < |p| && k + m < |s| && s[k + m] != p[m]
    ensures !OccursAt(s, k, p)
  {
  }

  /** A subsequence of whitespace-free text is whitespace-free. */
  lemma {:induction false} SubseqKeepsNoWs(a: string, b: string)
    requires IsSubseq(a, b) && NoWs(b)
    ensures NoWs(a)
    decreases |b|
  {
    if |a| > 0 {
      assert NoWs(b[1..]) by {
        forall k | 0 <= k < |b[1..]| ensures !IsWs(b[1..][k]) {
          assert b[1..][k] == b[k + 1];
        }
      }
      if a[0] == b[0] && IsSubseq(a[1..], b[1..]) {
        SubseqKeepsNoWs(a[1..], b[1..]);
        forall k | 0 <= k < |a| ensures !IsWs(a[k]) {
          if k > 0 {
            assert a[k] == a[1..][k - 1];
          }
        }
      } else {
        SubseqKeepsNoWs(a, b[1..]);
      }
    }
  }
}
