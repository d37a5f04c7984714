/** Token resolution: the lookup keys a transcript word stands for
    (split_numeric_word and the branch on word.isdigit() in
    generate_combined_video). */
module Tokens {
  import opened Text

  /** str.isdigit on a whole word: non-empty and all digits. */
  predicate IsNumeric(w: string) {
    |w| > 0 && forall i :: 0 <= i < |w| ==> IsDigit(w[i])
  }

  /** split_numeric_word: the digit characters of the word, each as a
      one-character key, in left-to-right order; other characters are
      dropped. */
  function SplitNumericWord(w: string): (parts: seq<string>)
    ensures |parts| <= |w|
    ensures forall k :: 0 <= k < |parts| ==> |parts[k]| == 1 && IsDigit(parts[k][0])
    ensures (forall i :: 0 <= i < |w| ==> !IsDigit(w[i])) ==> parts == []
    ensures IsNumeric(w) ==> |parts| == |w| && forall i :: 0 <= i < |w| ==> parts[i] == [w[i]]
  {
    if w == [] then []
    else
      var rest := SplitNumericWord(w[1..]);
      assert forall i :: 1 <= i < |w| ==> w[1..][i - 1] == w[i];
      if IsDigit(w[0]) then [[w[0]]] + rest else rest
  }

  /** split_numeric_word of one character: the character itself if it is a
      digit, nothing otherwise. */
  lemma SplitNumericWordOne(c: char)
    ensures SplitNumericWord([c]) == if IsDigit(c) then [[c]] else []
  {
    assert [c][1..] == [];
  }

  /** The digits of a concatenation are the digits of the first part followed
      by those of the second: with the one-character case this fixes the
      result to the word's digit characters in order, whatever else the word
      holds. */
  lemma {:induction false} SplitNumericWordAppend(a: string, b: string)
    ensures SplitNumericWord(a + b) == SplitNumericWord(a) + SplitNumericWord(b)
    decreases |a|
  {
    if a == [] {
      assert a + b == b;
    } else {
      assert (a + b)[0] == a[0];
      assert (a + b)[1..] == a[1..] + b;
      SplitNumericWordAppend(a[1..], b);
    }
  }

  /** A mixed word keeps its digits and drops everything else. */
  lemma MixedWordDigits()
    ensures SplitNumericWord("a1b2") == ["1", "2"]
  {
    assert "a1b2"[1..] == "1b2" && "1b2"[1..] == "b2" && "b2"[1..] == "2" && "2"[1..] == [];
  }

  /** The lookup keys of one transcript word: one per digit for an all-digit
      word, otherwise the word lowercased and nothing else. */
  function Keys(word: string): (keys: seq<string>)
    ensures |word| > 0 ==> |keys| >= 1
    ensures IsNumeric(word) ==> |keys| == |word| && forall i :: 0 <= i < |word| ==> keys[i] == [word[i]]
    ensures !IsNumeric(word) ==> keys == [Lower(word)]
    ensures forall k :: 0 <= k < |keys| ==> IsLowercase(keys[k])
  {
    if IsNumeric(word) then SplitNumericWord(word) else [Lower(word)]
  }

  lemma LowerKeepsNumeric(w: string)
    ensures IsNumeric(Lower(w)) <==> IsNumeric(w)
    ensures IsNumeric(w) ==> Lower(w) == w
  {
    if IsNumeric(w) {
      assert forall i :: 0 <= i < |w| ==> !IsUpper(w[i]);
      LowerIsLowercase(w);
    }
  }

  /** Resolution ignores the case of the transcript word: "Hello" and
      "hello" give the same keys. */
  lemma KeysIgnoreCase(word: string)
    ensures Keys(Lower(word)) == Keys(word)
  {
    LowerKeepsNumeric(word);
    LowerIdempotent(word);
  }

  /** The two worked cases: "305" gives "3", "0", "5"; "Hello" gives "hello". */
  lemma KeysExamples()
    ensures Keys("305") == ["3", "0", "5"]
    ensures Keys("Hello") == ["hello"]
  {
    assert IsNumeric("305");
    assert !IsNumeric("Hello") by { assert !IsDigit("Hello"[0]); }
    assert Lower("Hello") == "hello";
  }

  lemma KeysOf102()
    ensures Keys("102") == ["1", "0", "2"]
  {
    assert IsNumeric("102");
  }

  lemma KeysOfXyz()
    ensures Keys("xyz") == ["xyz"]
  {
    assert !IsNumeric("xyz") by { assert !IsDigit("xyz"[0]); }
    assert Lower("xyz") == "xyz";
  }
}
