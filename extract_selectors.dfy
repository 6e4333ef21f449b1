/**
 The selector transform of the extraction script: every raw class-selector
 token reported by the selector-listing library (such as `.btn` or
 `.hover\:underline`) becomes a bare class name by dropping its first
 character and deleting every backslash. The transform is the literal one:
 CSS escapes are not decoded, every backslash is simply removed.
 */
module ExtractSelectors {
  import opened JsString

  const BACKSLASH: char := '\\'

  /** The reference definition of the second step: the string with every
      backslash deleted and every other character kept, in order. */
  function StripBackslashes(s: string): (r: string)
    ensures BACKSLASH !in r
    ensures |r| <= |s|
    decreases |s|
  {
    if |s| == 0 then ""
    else if s[0] == BACKSLASH then StripBackslashes(s[1..])
    else [s[0]] + StripBackslashes(s[1..])
  }

  /** `split("\\").join("")` deletes exactly the backslashes. */
  lemma {:induction false} JoinSplitIsStrip(s: string)
    ensures Join(Split(s, BACKSLASH), "") == StripBackslashes(s)
    decreases |s|
  {
    if |s| > 0 {
      var rest := Split(s[1..], BACKSLASH);
      JoinSplitIsStrip(s[1..]);
      if s[0] == BACKSLASH {
        JoinConsEmpty(rest, "");
      } else {
        JoinConsHead(s[0], rest, "");
      }
    }
  }

  /** The class name of one selector token, computed as the script does:
      `tok.substring(1).split("\\").join("")`. */
  function ClassName(tok: string): (r: string)
    ensures r == StripBackslashes(if |tok| == 0 then "" else tok[1..])
    ensures BACKSLASH !in r
    ensures |r| <= if |tok| == 0 then 0 else |tok| - 1
  {
    var tail := Substring(tok, 1);
    assert tail == if |tok| == 0 then "" else tok[1..];
    JoinSplitIsStrip(tail);
    Join(Split(tail, BACKSLASH), "")
  }

  /** The list written to the output file: `classes.map(...)`, one class
      name per token, in the order the tokens were reported. */
  function Extract(toks: seq<string>): (r: seq<string>)
    ensures |r| == |toks|
    ensures forall i :: 0 <= i < |toks| ==> r[i] == ClassName(toks[i])
    ensures forall i :: 0 <= i < |r| ==> BACKSLASH !in r[i]
    decreases |toks|
  {
    if |toks| == 0 then [] else [ClassName(toks[0])] + Extract(toks[1..])
  }

  /** Stripping leaves a backslash-free string unchanged. */
  lemma {:induction false} StripIdentity(s: string)
    requires BACKSLASH !in s
    ensures StripBackslashes(s) == s
    decreases |s|
  {
    if |s| > 0 {
      StripIdentity(s[1..]);
      assert s == [s[0]] + s[1..];
    }
  }

  /** Stripping twice is the same as stripping once. */
  lemma StripIdempotent(s: string)
    ensures StripBackslashes(StripBackslashes(s)) == StripBackslashes(s)
  {
    StripIdentity(StripBackslashes(s));
  }

  /** Stripping works piece by piece: it distributes over concatenation. */
  lemma {:induction false} StripConcat(a: string, b: string)
    ensures StripBackslashes(a + b) == StripBackslashes(a) + StripBackslashes(b)
    decreases |a|
  {
    if |a| > 0 {
      assert (a + b)[1..] == a[1..] + b;
      StripConcat(a[1..], b);
    } else {
      assert a + b == b;
    }
  }

  /** `a` can be obtained from `b` by deleting characters. */
  ghost predicate IsSubsequence(a: string, b: string)
    decreases |b|
  {
    |a| == 0 ||
    (|b| > 0 && if a[0] == b[0] then IsSubsequence(a[1..], b[1..]) else IsSubsequence(a, b[1..]))
  }

  /** The stripped string keeps the surviving characters in their order. */
  lemma {:induction false} StripIsSubsequence(s: string)
    ensures IsSubsequence(StripBackslashes(s), s)
    decreases |s|
  {
    if |s| > 0 {
      StripIsSubsequence(s[1..]);
    }
  }

  /** Every character other than the backslash occurs as often after
      stripping as before, and the backslash not at all. */
  lemma {:induction false} StripCounts(s: string, c: char)
    ensures multiset(StripBackslashes(s))[c] == if c == BACKSLASH then 0 else multiset(s)[c]
    decreases |s|
  {
    if |s| > 0 {
      StripCounts(s[1..], c);
      assert s == [s[0]] + s[1..];
      assert multiset(s) == multiset([s[0]]) + multiset(s[1..]);
    }
  }

  /** Stripping removes exactly the backslashes: the length drops by their number. */
  lemma {:induction false} StripLength(s: string)
    ensures |StripBackslashes(s)| + multiset(s)[BACKSLASH] == |s|
    decreases |s|
  {
    if |s| > 0 {
      StripLength(s[1..]);
      assert s == [s[0]] + s[1..];
      assert multiset(s) == multiset([s[0]]) + multiset(s[1..]);
    }
  }

  /** A backslash-free subsequence of `s` is no longer than the
      non-backslash characters of `s`. */
  lemma {:induction false} SubsequenceBound(t: string, s: string)
    requires IsSubsequence(t, s) && BACKSLASH !in t
    ensures |t| + multiset(s)[BACKSLASH] <= |s|
    decreases |s|
  {
    if |s| == 0 {
    } else {
      assert s == [s[0]] + s[1..];
      assert multiset(s) == multiset([s[0]]) + multiset(s[1..]);
      if |t| == 0 {
      } else if t[0] == s[0] {
        SubsequenceBound(t[1..], s[1..]);
      } else {
        SubsequenceBound(t, s[1..]);
      }
    }
  }

  /** The stripped string is THE subsequence of `s` made of all its
      non-backslash characters: any backslash-free subsequence that keeps as
      many characters equals it. */
  lemma {:induction false} StripUnique(t: string, s: string)
    requires IsSubsequence(t, s) && BACKSLASH !in t
    requires |t| + multiset(s)[BACKSLASH] == |s|
    ensures t == StripBackslashes(s)
    decreases |s|
  {
    if |s| > 0 {
      assert s == [s[0]] + s[1..];
      assert multiset(s) == multiset([s[0]]) + multiset(s[1..]);
      if |t| == 0 {
        StripUnique(t, s[1..]);
      } else if t[0] == s[0] {
        StripUnique(t[1..], s[1..]);
        assert t == [t[0]] + t[1..];
      } else {
        if s[0] != BACKSLASH {
          SubsequenceBound(t, s[1..]);
        }
        StripUnique(t, s[1..]);
      }
    }
  }

  /** A token whose tail `tok.substring(1)` holds no backslash maps to
      exactly that tail, whatever its leading marker: `.btn` gives `btn`, and
      the empty token gives the empty string. */
  lemma PlainToken(tok: string)
    requires BACKSLASH !in Substring(tok, 1)
    ensures ClassName(tok) == Substring(tok, 1)
  {
    var tail := Substring(tok, 1);
    assert tail == if |tok| == 0 then "" else tok[1..];
    StripIdentity(tail);
  }

  /** The transform works token by token: it distributes over concatenation
      of token lists, so the class names keep the order of their tokens. */
  lemma {:induction false} ExtractConcat(a: seq<string>, b: seq<string>)
    ensures Extract(a + b) == Extract(a) + Extract(b)
    decreases |a|
  {
    if |a| > 0 {
      assert (a + b)[1..] == a[1..] + b;
      ExtractConcat(a[1..], b);
    }
  }

  /** A token whose tail holds one backslash, as CSS writes an escaped
      special character, loses the marker and that backslash:
      `.btn\:hover` gives `btn:hover`. */
  lemma EscapedToken(tok: string, i: nat)
    requires 1 <= i < |tok| && tok[i] == BACKSLASH
    requires BACKSLASH !in tok[1..i] && BACKSLASH !in tok[i + 1..]
    ensures ClassName(tok) == tok[1..i] + tok[i + 1..]
  {
    assert tok[1..] == tok[1..i] + tok[i..];
    StripConcat(tok[1..i], tok[i..]);
    StripIdentity(tok[1..i]);
    assert tok[i..][1..] == tok[i + 1..];
    StripIdentity(tok[i + 1..]);
  }

  /** The escaped-colon example: `.btn\:hover` gives `btn:hover`. (Tokens
      in the examples are parameters so that the verifier does not evaluate
      the transform on literal strings.) */
  lemma EscapedColonExample(tok: string)
    requires tok == ".btn\\:hover"
    ensures ClassName(tok) == "btn:hover"
  {
    EscapedToken(tok, 4);
  }

  /** The worked example: the tokens `.btn`, `.btn\:hover` and `.card-title`
      give the class names `btn`, `btn:hover` and `card-title`. */
  lemma ExtractExample(plain: string, escaped: string, dashed: string)
    requires plain == ".btn" && escaped == ".btn\\:hover" && dashed == ".card-title"
    ensures Extract([plain, escaped, dashed]) == ["btn", "btn:hover", "card-title"]
  {
    PlainToken(plain);
    EscapedColonExample(escaped);
    PlainToken(dashed);
  }

  /** An empty token list gives an empty list of class names. */
  lemma ExtractEmpty(toks: seq<string>)
    ensures Extract(toks) == [] <==> toks == []
  {
  }
}
