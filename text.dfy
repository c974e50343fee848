/** String primitives the matcher relies on: ASCII case folding and the
    whitespace handling of Python's `str.strip()` and `str.split()`. */
module Text {

  /** The characters Python's `str.isspace()` accepts within ASCII. */
  predicate IsSpace(c: char)
  {
    c == ' ' || c == '\t' || c == '\n' || c == '\r' || c == '\U{000B}' || c == '\U{000C}'
    || ('\U{001C}' <= c <= '\U{001F}')
  }

  /** One character of `lower()`: an ASCII capital becomes its small letter. */
  function LowerChar(c: char): (d: char)
    ensures 'A' <= c <= 'Z' ==> 'a' <= d <= 'z' && d as int == c as int + 32
    ensures !('A' <= c <= 'Z') ==> d == c
  {
    if 'A' <= c <= 'Z' then (c as int + 32) as char else c
  }

  /** `s.lower()` restricted to ASCII letters. */
  function Lower(s: string): (r: string)
    ensures |r| == |s|
    ensures forall i :: 0 <= i < |s| ==> r[i] == LowerChar(s[i])
  {
    seq(|s|, i requires 0 <= i < |s| => LowerChar(s[i]))
  }

  lemma LowerIdempotent(s: string)
    ensures Lower(Lower(s)) == Lower(s)
  {
  }

  lemma LowerConcat(a: string, b: string)
    ensures Lower(a + b) == Lower(a) + Lower(b)
  {
  }

  lemma LowerPreservesSpace(s: string)
    ensures forall i :: 0 <= i < |s| ==> (IsSpace(Lower(s)[i]) <==> IsSpace(s[i]))
  {
  }

  /** Drop leading whitespace. */
  function TrimStart(s: string): (r: string)
    ensures |r| <= |s| && r == s[|s| - |r|..]
    ensures r != [] ==> !IsSpace(r[0])
    ensures forall i :: 0 <= i < |s| - |r| ==> IsSpace(s[i])
  {
    if s != [] && IsSpace(s[0]) then TrimStart(s[1..]) else s
  }

  /** Drop trailing whitespace. */
  function TrimEnd(s: string): (r: string)
    ensures |r| <= |s| && r == s[..|r|]
    ensures r != [] ==> !IsSpace(r[|r| - 1])
    ensures forall i :: |r| <= i < |s| ==> IsSpace(s[i])
  {
    if s != [] && IsSpace(s[|s| - 1]) then TrimEnd(s[..|s| - 1]) else s
  }

  /** `s.strip()`: both ends, whitespace only. */
  function Strip(s: string): (r: string)
    ensures r != [] ==> !IsSpace(r[0]) && !IsSpace(r[|r| - 1])
  {
    TrimEnd(TrimStart(s))
  }

  /** Strip removes whitespace at the two ends and nothing else: the result
      is the slice of `s` between a whitespace prefix and a whitespace suffix. */
  lemma StripKeepsMiddle(s: string)
    ensures var a := |s| - |TrimStart(s)|;
      a + |Strip(s)| <= |s| && Strip(s) == s[a..a + |Strip(s)|] &&
      (forall i :: 0 <= i < a ==> IsSpace(s[i])) &&
      (forall i :: a + |Strip(s)| <= i < |s| ==> IsSpace(s[i]))
  {
    var t := TrimStart(s);
    var r := TrimEnd(t);
    MiddleSlice(s, |s| - |t|, t, r);
  }

  /** A prefix of a suffix is a slice; whitespace after the prefix within
      the suffix is whitespace at the same place of the whole string. */
  lemma MiddleSlice(s: string, a: nat, t: string, r: string)
    requires a <= |s| && t == s[a..] && |r| <= |t| && r == t[..|r|]
    requires forall j :: |r| <= j < |t| ==> IsSpace(t[j])
    ensures a + |r| <= |s| && r == s[a..a + |r|]
    ensures forall i :: a + |r| <= i < |s| ==> IsSpace(s[i])
  {
    forall i | a + |r| <= i < |s| ensures IsSpace(s[i]) {
      assert s[i] == t[i - a];
    }
  }

  /** No ASCII capital letter occurs in `s`. */
  predicate NoCapital(s: string)
  {
    forall i :: 0 <= i < |s| ==> !('A' <= s[i] <= 'Z')
  }

  /** Stripping a lower-cased string leaves no ASCII capital. */
  lemma LowerStripNoCapital(s: string)
    ensures NoCapital(Strip(Lower(s)))
  {
    var l := Lower(s);
    assert NoCapital(l) by {
      forall i | 0 <= i < |l| ensures !('A' <= l[i] <= 'Z') {
        assert l[i] == LowerChar(s[i]);
      }
    }
    var t := TrimStart(l);
    SliceNoCapital(l, |l| - |t|, t);
    SliceNoCapital(t, 0, TrimEnd(t));
  }

  lemma SliceNoCapital(l: string, a: nat, r: string)
    requires NoCapital(l)
    requires a + |r| <= |l| && r == l[a..a + |r|]
    ensures NoCapital(r)
  {
    forall i | 0 <= i < |r| ensures !('A' <= r[i] <= 'Z') {
      assert r[i] == l[a + i];
    }
  }

  /** Length of the longest prefix of `s` free of whitespace. */
  function WordLength(s: string): (n: nat)
    ensures n <= |s|
    ensures forall i :: 0 <= i < n ==> !IsSpace(s[i])
    ensures n < |s| ==> IsSpace(s[n])
  {
    if s == [] || IsSpace(s[0]) then 0 else 1 + WordLength(s[1..])
  }

  /** `s.split()` with no separator: the maximal whitespace-free runs, in order. */
  function Split(s: string): (r: seq<string>)
    decreases |s|
  {
    if s == [] then []
    else if IsSpace(s[0]) then Split(s[1..])
    else
      var n := WordLength(s);
      [s[..n]] + Split(s[n..])
  }

  /** No token is empty and no token contains whitespace. */
  lemma {:induction false} SplitTokens(s: string)
    ensures forall k :: 0 <= k < |Split(s)| ==> Split(s)[k] != []
    ensures forall k, i :: 0 <= k < |Split(s)| && 0 <= i < |Split(s)[k]| ==> !IsSpace(Split(s)[k][i])
    decreases |s|
  {
    if s == [] {
    } else if IsSpace(s[0]) {
      SplitTokens(s[1..]);
    } else {
      var n := WordLength(s);
      SplitTokens(s[n..]);
    }
  }

  /** A string with no whitespace and at least one character splits into itself. */
  lemma {:induction false} SplitWord(s: string)
    requires s != []
    requires forall i :: 0 <= i < |s| ==> !IsSpace(s[i])
    ensures Split(s) == [s]
  {
    WordLengthAll(s);
    assert !IsSpace(s[0]);
    assert s[..|s|] == s && s[|s|..] == [];
  }

  lemma {:induction false} WordLengthAll(s: string)
    requires forall i :: 0 <= i < |s| ==> !IsSpace(s[i])
    ensures WordLength(s) == |s|
    decreases |s|
  {
    if s != [] {
      WordLengthAll(s[1..]);
    }
  }

  /** Strip leaves alone a string that neither starts nor ends with whitespace. */
  lemma StripClean(s: string)
    requires s != [] ==> !IsSpace(s[0]) && !IsSpace(s[|s| - 1])
    ensures Strip(s) == s
  {
  }

  /** Two whitespace-free words joined by one space split back into the two words. */
  lemma {:induction false} SplitTwoWords(a: string, b: string)
    requires a != [] && b != []
    requires forall i :: 0 <= i < |a| ==> !IsSpace(a[i])
    requires forall i :: 0 <= i < |b| ==> !IsSpace(b[i])
    ensures Split(a + " " + b) == [a, b]
  {
    var s := a + " " + b;
    WordLengthPrefix(a, " " + b);
    assert s[..|a|] == a;
    assert s[|a|..] == " " + b;
    assert (" " + b)[1..] == b;
    SplitWord(b);
  }

  /** The first word of `a + t` is `a` when `t` starts with whitespace. */
  lemma {:induction false} WordLengthPrefix(a: string, t: string)
    requires forall i :: 0 <= i < |a| ==> !IsSpace(a[i])
    requires t != [] && IsSpace(t[0])
    ensures WordLength(a + t) == |a|
    decreases |a|
  {
    if a != [] {
      assert (a + t)[1..] == a[1..] + t;
      WordLengthPrefix(a[1..], t);
    } else {
      assert a + t == t;
    }
  }

  /** Lower-casing, stripping and splitting two words joined by one space
      gives back the two words, lower-cased. */
  lemma {:induction false} NormalizeTwoWords(a: string, b: string)
    requires a != [] && b != []
    requires forall i :: 0 <= i < |a| ==> !IsSpace(a[i])
    requires forall i :: 0 <= i < |b| ==> !IsSpace(b[i])
    ensures Split(Strip(Lower(a + " " + b))) == [Lower(a), Lower(b)]
  {
    var la, lb := Lower(a), Lower(b);
    LowerConcat(a + " ", b);
    LowerConcat(a, " ");
    assert Lower(" ") == " ";
    var low := la + " " + lb;
    assert Lower(a + " " + b) == low;
    assert forall i :: 0 <= i < |la| ==> !IsSpace(la[i]) by { LowerPreservesSpace(a); }
    assert forall i :: 0 <= i < |lb| ==> !IsSpace(lb[i]) by { LowerPreservesSpace(b); }
    assert low[0] == la[0] && low[|low| - 1] == lb[|lb| - 1];
    StripClean(low);
    SplitTwoWords(la, lb);
  }

  /** Tokens joined by single spaces, as `" ".join(tokens)`. */
  function Join(tokens: seq<string>): string
  {
    if tokens == [] then []
    else if |tokens| == 1 then tokens[0]
    else tokens[0] + " " + Join(tokens[1..])
  }

  /** Trailing-run handling of `Squeeze`, one character at a time: every
      non-space character is kept, a whitespace character is dropped when
      another whitespace character or the end follows it, and becomes one
      space when a non-space character follows it. */
  function Tidy(s: string): string
    decreases |s|
  {
    if s == [] then []
    else if !IsSpace(s[0]) then [s[0]] + Tidy(s[1..])
    else if |s| == 1 || IsSpace(s[1]) then Tidy(s[1..])
    else [' '] + Tidy(s[1..])
  }

  /** `s` with leading and trailing whitespace removed and every inner
      whitespace run replaced by a single space, computed character by
      character. */
  function Squeeze(s: string): string
  {
    Tidy(TrimStart(s))
  }

  /** No token is empty and none contains whitespace. */
  ghost predicate Sound(tokens: seq<string>)
  {
    forall k :: 0 <= k < |tokens| ==> tokens[k] != [] && forall i :: 0 <= i < |tokens[k]| ==> !IsSpace(tokens[k][i])
  }

  /** A word followed by nothing or by whitespace is kept whole by `Tidy`. */
  lemma {:induction false} TidyWord(w: string, rest: string)
    requires forall i :: 0 <= i < |w| ==> !IsSpace(w[i])
    requires rest != [] ==> IsSpace(rest[0])
    ensures Tidy(w + rest) == w + Tidy(rest)
    decreases |w|
  {
    if w == [] {
      assert w + rest == rest;
    } else {
      var s, y := w + rest, Tidy(rest);
      assert s[0] == w[0] && s[1..] == w[1..] + rest;
      TidyKeeps(s);
      TidyWord(w[1..], rest);
      assert [w[0]] + (w[1..] + y) == w + y by {
        assert w == [w[0]] + w[1..];
      }
    }
  }

  /** `Tidy` copies a non-whitespace character unchanged. */
  lemma TidyKeeps(s: string)
    requires s != [] && !IsSpace(s[0])
    ensures Tidy(s) == [s[0]] + Tidy(s[1..])
  {
  }

  /** A split is empty exactly when the string is all whitespace. */
  lemma {:induction false} SplitEmpty(s: string)
    ensures Split(s) == [] <==> TrimStart(s) == []
    decreases |s|
  {
    if s != [] && IsSpace(s[0]) {
      SplitEmpty(s[1..]);
    }
  }

  /** Completeness of `split()`: joining the tokens with single spaces gives
      back the whole string with its whitespace squeezed. Together with
      `SplitTokens`, this fixes every token and its order (`SplitUnique`). */
  lemma {:induction false} SplitJoin(s: string)
    ensures Join(Split(s)) == Squeeze(s)
    decreases |s|
  {
    if s == [] {
    } else if IsSpace(s[0]) {
      SplitJoin(s[1..]);
      assert TrimStart(s) == TrimStart(s[1..]);
    } else {
      var n := WordLength(s);
      SplitJoin(s[n..]);
      assert s == s[..n] + s[n..];
      SplitJoinWord(s, s[..n], s[n..]);
    }
  }

  /** The word case of `SplitJoin`: a leading word followed by a rest whose
      split already joins to its squeeze. */
  lemma SplitJoinWord(s: string, w: string, rest: string)
    requires s == w + rest && w != [] && Split(s) == [w] + Split(rest)
    requires forall i :: 0 <= i < |w| ==> !IsSpace(w[i])
    requires rest != [] ==> IsSpace(rest[0])
    requires Join(Split(rest)) == Squeeze(rest)
    ensures Join(Split(s)) == Squeeze(s)
  {
    var tokens, x := Split(rest), Tidy(TrimStart(rest));
    assert Join(Split(s)) == if tokens == [] then w else w + " " + Join(tokens) by {
      JoinCons(w, tokens);
    }
    assert Squeeze(s) == w + Tidy(rest) by {
      assert TrimStart(s) == s by { assert s[0] == w[0]; }
      TidyWord(w, rest);
    }
    assert Tidy(rest) == if TrimStart(rest) == [] then [] else [' '] + x by {
      TidyAfterWord(rest);
    }
    assert tokens == [] <==> TrimStart(rest) == [] by {
      SplitEmpty(rest);
    }
    if tokens == [] {
      assert w + [] == w;
    } else {
      SpaceBetween(w, x);
    }
  }

  /** Regrouping a concatenation, kept apart so that `SplitJoinWord` stays small. */
  lemma SpaceBetween(w: string, x: string)
    ensures w + " " + x == w + ([' '] + x)
  {
  }

  lemma JoinCons(w: string, tokens: seq<string>)
    ensures Join([w] + tokens) == if tokens == [] then w else w + " " + Join(tokens)
  {
    if tokens != [] {
      assert ([w] + tokens)[1..] == tokens;
    }
  }

  /** What `Tidy` makes of the whitespace run after a word. */
  lemma {:induction false} TidyAfterWord(rest: string)
    requires rest != [] ==> IsSpace(rest[0])
    ensures Tidy(rest) == if TrimStart(rest) == [] then [] else [' '] + Tidy(TrimStart(rest))
    decreases |rest|
  {
    if rest != [] && |rest| > 1 && IsSpace(rest[1]) {
      TidyAfterWord(rest[1..]);
    }
  }

  /** Sound tokens are recovered from their join: the first token is the
      first word, and the rest is what follows the first space. */
  lemma {:induction false} JoinInjective(xs: seq<string>, ys: seq<string>)
    requires Sound(xs) && Sound(ys)
    requires Join(xs) == Join(ys)
    ensures xs == ys
    decreases |xs|
  {
    if xs != [] && ys != [] {
      FirstWord(xs);
      FirstWord(ys);
      var a := xs[0];
      assert a == ys[0];
      if |xs| > 1 && |ys| > 1 {
        var j := Join(xs);
        assert Join(xs[1..]) == j[|a| + 1..];
        assert Join(ys[1..]) == j[|a| + 1..];
        JoinInjective(xs[1..], ys[1..]);
        assert xs == [a] + xs[1..] && ys == [a] + ys[1..];
      } else {
        assert |xs| == 1 && |ys| == 1;
      }
    } else if xs != [] {
      FirstWord(xs);
    } else if ys != [] {
      FirstWord(ys);
    }
  }

  /** The join of sound tokens starts with its first token, whole. */
  lemma {:induction false} FirstWord(xs: seq<string>)
    requires Sound(xs) && xs != []
    ensures |xs[0]| <= |Join(xs)| && Join(xs)[..|xs[0]|] == xs[0]
    ensures WordLength(Join(xs)) == |xs[0]|
    ensures |xs| == 1 <==> |Join(xs)| == |xs[0]|
  {
    var a := xs[0];
    assert forall i :: 0 <= i < |a| ==> !IsSpace(a[i]);
    if |xs| == 1 {
      WordLengthAll(a);
    } else {
      var t := " " + Join(xs[1..]);
      assert Join(xs) == a + t;
      WordLengthPrefix(a, t);
      assert (a + t)[..|a|] == a;
    }
  }

  /** `Split(s)` is the only list of sound tokens whose join is `Squeeze(s)`. */
  lemma SplitUnique(s: string, tokens: seq<string>)
    requires Sound(tokens)
    requires Join(tokens) == Squeeze(s)
    ensures tokens == Split(s)
  {
    SplitTokens(s);
    SplitJoin(s);
    JoinInjective(tokens, Split(s));
  }
}
