/**
 The word filter applied when cleaning a word list: a word is kept unless it
 starts with an uppercase letter (a proper noun) or contains an apostrophe.
 Whether a character is uppercase is Unicode case information, which the model
 takes as a parameter `isUpper`.
 */
module Cleanup {

  /** Whether `word` is kept. */
  function IsValid(word: string, isUpper: char -> bool): (valid: bool)
    ensures valid <==> (|word| == 0 || !isUpper(word[0])) && forall i :: 0 <= i < |word| ==> word[i] != '\''
  {
    if |word| > 0 && isUpper(word[0]) then false
    else if '\'' in word then false
    else true
  }

  /** The empty word is kept, whatever counts as uppercase. */
  lemma EmptyValid(isUpper: char -> bool)
    ensures IsValid("", isUpper)
  {
  }

  /** A word whose first character is uppercase is rejected. */
  lemma UppercaseRejects(word: string, isUpper: char -> bool)
    requires |word| > 0 && isUpper(word[0])
    ensures !IsValid(word, isUpper)
  {
  }

  /** An apostrophe at any position rejects the word. */
  lemma ApostropheRejects(word: string, i: nat, isUpper: char -> bool)
    requires i < |word| && word[i] == '\''
    ensures !IsValid(word, isUpper)
  {
  }

  /** Only the first character's case matters: changing a later character to a non-apostrophe keeps the verdict. */
  lemma LaterCaseIrrelevant(word: string, i: nat, c: char, isUpper: char -> bool)
    requires 0 < i < |word| && word[i] != '\'' && c != '\''
    ensures IsValid(word[i := c], isUpper) == IsValid(word, isUpper)
  {
    var w := word[i := c];
    if IsValid(w, isUpper) {
      forall k | 0 <= k < |word| ensures word[k] != '\'' {
        if k != i { assert word[k] == w[k]; }
      }
    }
    if IsValid(word, isUpper) {
      forall k | 0 <= k < |w| ensures w[k] != '\'' {
        if k != i { assert word[k] == w[k]; }
      }
    }
  }

  /** A valid word stays valid after appending characters that are not apostrophes, and a prefix of a valid word is valid. */
  lemma AppendValid(a: string, b: string, isUpper: char -> bool)
    requires |a| > 0
    ensures IsValid(a + b, isUpper) <==> IsValid(a, isUpper) && forall i :: 0 <= i < |b| ==> b[i] != '\''
  {
    var w := a + b;
    assert w[0] == a[0];
    if IsValid(w, isUpper) {
      forall i | 0 <= i < |a| ensures a[i] != '\'' { assert w[i] == a[i]; }
      forall i | 0 <= i < |b| ensures b[i] != '\'' { assert w[|a| + i] == b[i]; }
    }
    if IsValid(a, isUpper) && forall i :: 0 <= i < |b| ==> b[i] != '\'' {
      forall i | 0 <= i < |w| ensures w[i] != '\'' {
        if i < |a| { assert w[i] == a[i]; } else { assert w[i] == b[i - |a|]; }
      }
    }
  }

  /** The words the source's tests accept and reject, under any case table that agrees on their first letters. */
  lemma Examples(isUpper: char -> bool)
    requires !isUpper('a') && !isUpper('é') && !isUpper('h')
    requires isUpper('F') && isUpper('É') && isUpper('A') && isUpper('T')
    ensures IsValid("abba", isUpper) && IsValid("épée", isUpper) && IsValid("hELLO", isUpper)
    ensures !IsValid("FOOBAR", isUpper) && !IsValid("Épée", isUpper)
    ensures !IsValid("Altux", isUpper) && !IsValid("TuxyMAT", isUpper)
    ensures !IsValid("it's", isUpper) && !IsValid("'apostrophe", isUpper) && !IsValid("apstrophe'", isUpper)
  {
    assert "it's"[2] == '\'';
    assert "apstrophe'"[9] == '\'';
  }
}
