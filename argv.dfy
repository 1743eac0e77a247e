/**
 * The argument vector of a session command: Rust's `str::split_whitespace`
 * followed by `collect`, splitting on runs of Unicode White_Space.
 */
module Argv {

  /** Unicode White_Space, the set `char::is_whitespace` (and so `split_whitespace`) uses. */
  predicate IsWhitespace(c: char)
  {
    c == ' ' || ('\t' <= c <= '\r') || c == '\U{0085}' || c == '\U{00A0}' || c == '\U{1680}'
    || ('\U{2000}' <= c <= '\U{200A}') || c == '\U{2028}' || c == '\U{2029}' || c == '\U{202F}'
    || c == '\U{205F}' || c == '\U{3000}'
  }

  /** Empty or made of whitespace only. */
  predicate IsBlank(s: string)
  {
    forall i :: 0 <= i < |s| ==> IsWhitespace(s[i])
  }

  predicate NoWhitespace(s: string)
  {
    forall i :: 0 <= i < |s| ==> !IsWhitespace(s[i])
  }

  /** What `split_whitespace` can yield: a non-empty run of non-whitespace characters. */
  predicate IsWord(w: string)
  {
    w != [] && NoWhitespace(w)
  }

  /** The longest prefix of `s` without whitespace. */
  function Word(s: string): (w: string)
    ensures |w| <= |s| && w == s[..|w|]
    ensures NoWhitespace(w)
    ensures |w| < |s| ==> IsWhitespace(s[|w|])
  {
    if s == [] || IsWhitespace(s[0]) then [] else [s[0]] + Word(s[1..])
  }

  /** `s.split_whitespace().map(|s| s.to_string()).collect()`. */
  function SplitWhitespace(s: string): (args: seq<string>)
    ensures forall k :: 0 <= k < |args| ==> IsWord(args[k])
    ensures args == [] <==> IsBlank(s)
    decreases |s|
  {
    if s == [] then []
    else if IsWhitespace(s[0]) then SplitWhitespace(s[1..])
    else
      var w := Word(s);
      [w] + SplitWhitespace(s[|w|..])
  }

  /** The arguments joined by single spaces (`args.join(" ")`). */
  function JoinWords(args: seq<string>): string
  {
    if args == [] then []
    else if |args| == 1 then args[0]
    else args[0] + " " + JoinWords(args[1..])
  }

  /**
   * `s` with its leading and trailing whitespace dropped and every inner run
   * of whitespace replaced by one space, defined character by character.
   */
  function Squeeze(s: string): string
    decreases |s|
  {
    if s == [] then []
    else if IsWhitespace(s[0]) then Squeeze(s[1..])
    else if |s| > 1 && IsWhitespace(s[1]) then
      var rest := Squeeze(s[1..]);
      if rest == [] then [s[0]] else [s[0], ' '] + rest
    else [s[0]] + Squeeze(s[1..])
  }

  /** Joining words gives the empty string exactly for no words. */
  lemma {:induction false} JoinWordsEmpty(args: seq<string>)
    requires forall k :: 0 <= k < |args| ==> IsWord(args[k])
    ensures JoinWords(args) == [] <==> args == []
  {
    if |args| > 1 {
      assert JoinWords(args) == args[0] + " " + JoinWords(args[1..]);
    }
  }

  /** A squeezed string starts with the word at the front of `s`. */
  lemma {:induction false} SqueezeWord(s: string)
    requires s != [] && !IsWhitespace(s[0])
    ensures var w := Word(s); var rest := Squeeze(s[|w|..]);
      Squeeze(s) == w + (if rest == [] then [] else " " + rest)
    decreases |s|
  {
    if |s| > 1 && !IsWhitespace(s[1]) {
      SqueezeWord(s[1..]);
      assert s[1..][|Word(s[1..])|..] == s[|Word(s)|..];
    }
  }

  /** The split arguments, joined by single spaces, are the command with its whitespace runs collapsed. */
  lemma {:induction false} JoinSplitIsSqueeze(s: string)
    ensures JoinWords(SplitWhitespace(s)) == Squeeze(s)
    decreases |s|
  {
    if s == [] {
    } else if IsWhitespace(s[0]) {
      JoinSplitIsSqueeze(s[1..]);
    } else {
      var w := Word(s);
      var rest := SplitWhitespace(s[|w|..]);
      JoinSplitIsSqueeze(s[|w|..]);
      SqueezeWord(s);
      JoinWordsEmpty(rest);
      assert SplitWhitespace(s) == [w] + rest;
      if rest != [] {
        assert ([w] + rest)[1..] == rest;
      }
    }
  }

  /** The word at the front of `w + t` is `w` when `t` starts at a word boundary. */
  lemma {:induction false} WordOfPrefix(w: string, t: string)
    requires NoWhitespace(w)
    requires t == [] || IsWhitespace(t[0])
    ensures Word(w + t) == w
    decreases |w|
  {
    if w != [] {
      assert (w + t)[1..] == w[1..] + t;
      WordOfPrefix(w[1..], t);
    }
  }

  /** Splitting words joined by single spaces gives those words back. */
  lemma {:induction false} SplitJoin(args: seq<string>)
    requires forall k :: 0 <= k < |args| ==> IsWord(args[k])
    ensures SplitWhitespace(JoinWords(args)) == args
    decreases |args|
  {
    if args == [] {
    } else if |args| == 1 {
      var w := args[0];
      WordOfPrefix(w, []);
      assert w + [] == w;
      assert w[|w|..] == [];
    } else {
      var w, rest := args[0], JoinWords(args[1..]);
      var s := w + " " + rest;
      assert JoinWords(args) == s;
      WordOfPrefix(w, " " + rest);
      assert w + (" " + rest) == s;
      assert s[|w|..] == " " + rest;
      assert (" " + rest)[1..] == rest;
      SplitJoin(args[1..]);
    }
  }

  /** A single word splits to itself. */
  lemma SplitWord(w: string)
    requires IsWord(w)
    ensures SplitWhitespace(w) == [w]
  {
    SplitJoin([w]);
  }
}
