/** Splitting at a separator character and joining, with the two inverse laws. */
module Strings {

  function Join(tokens: seq<string>, sep: string): string {
    if tokens == [] then ""
    else if |tokens| == 1 then tokens[0]
    else tokens[0] + sep + Join(tokens[1..], sep)
  }

  function Split(s: string, c: char): (tokens: seq<string>)
    ensures 1 <= |tokens|
  {
    if s == "" then [""]
    else
      var rest := Split(s[1..], c);
      if s[0] == c then [""] + rest else [[s[0]] + rest[0]] + rest[1..]
  }

  lemma {:induction false} SplitIsFree(s: string, c: char)
    ensures forall t :: t in Split(s, c) ==> c !in t
  {
    if s != "" {
      SplitIsFree(s[1..], c);
      var rest := Split(s[1..], c);
      assert rest[0] in rest;
      assert forall t :: t in rest[1..] ==> t in rest;
    }
  }

  lemma {:induction false} JoinSplit(s: string, c: char)
    ensures Join(Split(s, c), [c]) == s
  {
    if s != "" {
      JoinSplit(s[1..], c);
      var rest := Split(s[1..], c);
      var all := Split(s, c);
      if s[0] == c {
        assert all[1..] == rest;
      } else {
        assert all[0] == [s[0]] + rest[0] && all[1..] == rest[1..];
        if |rest| > 1 {
          assert [s[0]] + (rest[0] + [c] + Join(rest[1..], [c])) == ([s[0]] + rest[0]) + [c] + Join(rest[1..], [c]);
        }
      }
      assert s == [s[0]] + s[1..];
    }
  }

  /** Splitting undoes joining: a separator-free token list is determined by its join. */
  lemma {:induction false} SplitJoin(tokens: seq<string>, c: char)
    requires tokens != [] && forall t :: t in tokens ==> c !in t
    ensures Split(Join(tokens, [c]), c) == tokens
  {
    if |tokens| == 1 {
      SplitToken(tokens[0], "", c);
      assert tokens[0] + "" == tokens[0];
    } else {
      SplitJoin(tokens[1..], c);
      var rest := Join(tokens[1..], [c]);
      SplitToken(tokens[0], [c] + rest, c);
      assert ([c] + rest)[1..] == rest;
      assert tokens[0] + [c] + rest == tokens[0] + ([c] + rest);
      assert Split([c] + rest, c) == [""] + tokens[1..];
      assert tokens[0] + "" == tokens[0];
    }
  }

  lemma {:induction false} SplitToken(t: string, rest: string, c: char)
    requires c !in t
    ensures Split(t + rest, c) == [t + Split(rest, c)[0]] + Split(rest, c)[1..]
  {
    if t == "" {
      assert t + rest == rest;
      assert "" + Split(rest, c)[0] == Split(rest, c)[0];
    } else {
      assert (t + rest)[1..] == t[1..] + rest;
      SplitToken(t[1..], rest, c);
      assert [t[0]] + (t[1..] + Split(rest, c)[0]) == t + Split(rest, c)[0];
    }
  }

  lemma {:induction false} SplitKeepsFree(s: string, c: char, x: char)
    requires x !in s
    ensures forall t :: t in Split(s, c) ==> x !in t
  {
    if s != "" {
      assert forall y :: y in s[1..] ==> y in s;
      SplitKeepsFree(s[1..], c, x);
      var rest := Split(s[1..], c);
      assert rest[0] in rest && forall t :: t in rest[1..] ==> t in rest;
    }
  }

  lemma {:induction false} JoinFree(tokens: seq<string>, sep: string, x: char)
    requires x !in sep && forall t :: t in tokens ==> x !in t
    ensures x !in Join(tokens, sep)
  {
    if |tokens| > 1 {
      JoinFree(tokens[1..], sep, x);
      assert tokens[0] in tokens;
    } else if |tokens| == 1 {
      assert tokens[0] in tokens;
    }
  }
}
