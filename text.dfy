/** ASCII models of the Python string operations the pipeline relies on:
    str.isspace and str.split() (no separator), str.isdigit on one
    character, and str.lower. */
module Text {

  /** str.isspace on an ASCII character: space, the controls \t \n \v \f \r,
      and the separators 0x1C to 0x1F. */
  predicate IsSpace(c: char) {
    c == ' ' || ('\t' <= c <= '\r') || ('\U{1C}' <= c <= '\U{1F}')
  }

  predicate IsDigit(c: char) {
    '0' <= c <= '9'
  }

  predicate IsUpper(c: char) {
    'A' <= c <= 'Z'
  }

  /** ASCII case folding of one character. */
  function LowerChar(c: char): (r: char)
    ensures !IsUpper(r)
    ensures !IsUpper(c) ==> r == c
    ensures IsUpper(c) ==> 'a' <= r <= 'z' && r as int - c as int == 32
    ensures IsDigit(r) <==> IsDigit(c)
    ensures IsSpace(r) <==> IsSpace(c)
  {
    if IsUpper(c) then (c as int + 32) as char else c
  }

  /** str.lower: every character folded, nothing else changed. */
  function Lower(s: string): (r: string)
    ensures |r| == |s|
    ensures forall i :: 0 <= i < |s| ==> r[i] == LowerChar(s[i])
  {
    seq(|s|, i requires 0 <= i < |s| => LowerChar(s[i]))
  }

  predicate IsLowercase(s: string) {
    forall i :: 0 <= i < |s| ==> !IsUpper(s[i])
  }

  lemma LowerIsLowercase(s: string)
    ensures IsLowercase(Lower(s))
    ensures IsLowercase(s) ==> Lower(s) == s
  {
  }

  lemma LowerIdempotent(s: string)
    ensures Lower(Lower(s)) == Lower(s)
  {
    LowerIsLowercase(s);
  }

  /** A token as str.split() hands it out: non-empty, no whitespace. */
  predicate IsToken(w: string) {
    |w| > 0 && forall i :: 0 <= i < |w| ==> !IsSpace(w[i])
  }

  /** The input with its leading whitespace removed. */
  function DropSpaces(s: string): (r: string)
    ensures |r| <= |s|
    ensures r == [] || !IsSpace(r[0])
  {
    if s != [] && IsSpace(s[0]) then DropSpaces(s[1..]) else s
  }

  /** What DropSpaces removes is a run of whitespace at the front, and what
      it keeps is the rest of the input. */
  lemma {:induction false} DropSpacesSkipsSpaces(s: string)
    ensures |DropSpaces(s)| <= |s| && DropSpaces(s) == s[|s| - |DropSpaces(s)|..]
    ensures forall i :: 0 <= i < |s| - |DropSpaces(s)| ==> IsSpace(s[i])
    decreases |s|
  {
    if s != [] && IsSpace(s[0]) {
      DropSpacesSkipsSpaces(s[1..]);
      assert forall i :: 1 <= i < |s| ==> s[1..][i - 1] == s[i];
    }
  }

  /** The longest prefix of the input that holds no whitespace. */
  function Word(s: string): (w: string)
    ensures |w| <= |s| && w == s[..|w|]
    ensures forall i :: 0 <= i < |w| ==> !IsSpace(w[i])
    ensures |w| == |s| || IsSpace(s[|w|])
  {
    if s == [] || IsSpace(s[0]) then [] else [s[0]] + Word(s[1..])
  }

  /** str.split() with no separator: the maximal runs of non-whitespace
      characters, in order. */
  function Split(s: string): seq<string>
    decreases |s|
  {
    var t := DropSpaces(s);
    if t == [] then []
    else
      var w := Word(t);
      assert |w| > 0 by { assert !IsSpace(t[0]); }
      var tail := t[|w|..];
      assert |tail| < |s|;
      [w] + Split(tail)
  }

  /** Every token str.split() returns is non-empty and holds no whitespace. */
  lemma {:induction false} SplitYieldsTokens(s: string)
    ensures forall k :: 0 <= k < |Split(s)| ==> IsToken(Split(s)[k])
    decreases |s|
  {
    var t := DropSpaces(s);
    if t != [] {
      var w := Word(t);
      assert |w| > 0 by { assert !IsSpace(t[0]); }
      var tail := t[|w|..];
      SplitYieldsTokens(tail);
      var rest := Split(tail);
      assert Split(s) == [w] + rest;
      forall k | 0 <= k < |Split(s)|
        ensures IsToken(Split(s)[k])
      {
        if k > 0 {
          assert Split(s)[k] == rest[k - 1];
        }
      }
    }
  }

  /** The tokens joined by single spaces, as a recogniser returns them. */
  function Join(tokens: seq<string>): string {
    if tokens == [] then []
    else if |tokens| == 1 then tokens[0]
    else tokens[0] + " " + Join(tokens[1..])
  }

  /** The characters of the input that are not whitespace, in order. */
  function NonSpaces(s: string): string {
    if s == [] then []
    else (if IsSpace(s[0]) then [] else [s[0]]) + NonSpaces(s[1..])
  }

  function Concat(tokens: seq<string>): string {
    if tokens == [] then [] else tokens[0] + Concat(tokens[1..])
  }

  lemma {:induction false} NonSpacesAppend(a: string, b: string)
    ensures NonSpaces(a + b) == NonSpaces(a) + NonSpaces(b)
    decreases |a|
  {
    if a == [] {
      assert a + b == b;
    } else {
      var head := if IsSpace(a[0]) then [] else [a[0]];
      assert (a + b)[0] == a[0];
      assert (a + b)[1..] == a[1..] + b;
      NonSpacesAppend(a[1..], b);
      calc {
        NonSpaces(a + b);
        head + NonSpaces(a[1..] + b);
        head + (NonSpaces(a[1..]) + NonSpaces(b));
        (head + NonSpaces(a[1..])) + NonSpaces(b);
      }
    }
  }

  lemma {:induction false} NonSpacesOfSpaceFree(w: string)
    requires forall i :: 0 <= i < |w| ==> !IsSpace(w[i])
    ensures NonSpaces(w) == w
    decreases |w|
  {
    if w != [] {
      NonSpacesOfSpaceFree(w[1..]);
    }
  }

  lemma {:induction false} NonSpacesOfDropSpaces(s: string)
    ensures NonSpaces(DropSpaces(s)) == NonSpaces(s)
    decreases |s|
  {
    if s != [] && IsSpace(s[0]) {
      NonSpacesOfDropSpaces(s[1..]);
    }
  }

  /** Splitting loses only whitespace: the tokens, put back together, are
      exactly the non-whitespace characters of the input, in order. */
  lemma {:induction false} SplitKeepsText(s: string)
    ensures Concat(Split(s)) == NonSpaces(s)
    decreases |s|
  {
    var t := DropSpaces(s);
    NonSpacesOfDropSpaces(s);
    if t != [] {
      var w := Word(t);
      var rest := t[|w|..];
      assert t == w + rest;
      NonSpacesAppend(w, rest);
      NonSpacesOfSpaceFree(w);
      SplitKeepsText(rest);
      assert Split(s) == [w] + Split(rest);
    }
  }

  lemma {:induction false} WordOfToken(w: string, rest: string)
    requires forall i :: 0 <= i < |w| ==> !IsSpace(w[i])
    requires rest == [] || IsSpace(rest[0])
    ensures Word(w + rest) == w
    decreases |w|
  {
    if w == [] {
      assert w + rest == rest;
    } else {
      assert (w + rest)[0] == w[0];
      assert (w + rest)[1..] == w[1..] + rest;
      WordOfToken(w[1..], rest);
      assert [w[0]] + w[1..] == w;
    }
  }

  lemma SplitTokenThen(w: string, rest: string)
    requires IsToken(w)
    requires rest == [] || IsSpace(rest[0])
    ensures Split(w + rest) == [w] + Split(rest)
  {
    var s := w + rest;
    assert s[0] == w[0];
    assert DropSpaces(s) == s;
    WordOfToken(w, rest);
    assert s[|w|..] == rest;
  }

  lemma SplitOfToken(w: string)
    requires IsToken(w)
    ensures Split(w) == [w]
  {
    var none: string := [];
    assert w + none == w;
    SplitTokenThen(w, none);
  }

  /** Whitespace before the first token is skipped: a leading whitespace
      character changes nothing. With SplitTokenThen and Split([]) == [] this
      fixes str.split() on every input. */
  lemma SplitLeadingSpace(c: char, s: string)
    requires IsSpace(c)
    ensures Split([c] + s) == Split(s)
  {
    var t := [c] + s;
    assert t[0] == c && t[1..] == s;
    assert DropSpaces(t) == DropSpaces(s);
  }

  lemma SplitEmpty()
    ensures Split([]) == []
  {
  }

  /** A token followed by a space and more text splits into the token and
      whatever the rest splits into. */
  lemma SplitTokenSpace(w: string, more: string)
    requires IsToken(w)
    ensures Split(w + (" " + more)) == [w] + Split(more)
  {
    SplitTokenThen(w, " " + more);
    SplitLeadingSpace(' ', more);
    assert " " + more == [' '] + more;
  }

  lemma JoinCons(tokens: seq<string>)
    requires |tokens| > 1
    ensures Join(tokens) == tokens[0] + (" " + Join(tokens[1..]))
  {
  }

  /** A transcript rebuilt from well-formed tokens splits back into them. */
  lemma {:induction false} SplitJoin(tokens: seq<string>)
    requires forall k :: 0 <= k < |tokens| ==> IsToken(tokens[k])
    ensures Split(Join(tokens)) == tokens
    decreases |tokens|
  {
    if |tokens| == 1 {
      SplitOfToken(tokens[0]);
    } else if |tokens| > 1 {
      var w, others := tokens[0], tokens[1..];
      assert forall k :: 0 <= k < |others| ==> others[k] == tokens[k + 1];
      SplitJoin(others);
      JoinCons(tokens);
      SplitTokenSpace(w, Join(others));
      assert tokens == [w] + others;
    }
  }
}
