/**
 * The custom question/answer table: how a message is turned into a lookup
 * key (`content.lower().strip()`) and how `set_answer` stores a question
 * (`question.lower()`, not stripped).
 */
module Answers {
  import opened Text

  /** The lookup key `on_message` computes from a message body. */
  function LookupKey(content: string): (r: string)
    ensures |r| <= |content|
    ensures Trimmed(r) && NoCapitals(r)
  {
    var l := Lower(content);
    var t := TrimStart(l);
    TrimStartSpec(l);
    SliceNoCapitals(l, |l| - |t|, |l|);
    TrimEndSpec(t);
    SliceNoCapitals(t, 0, |TrimEnd(t)|);
    Strip(l)
  }

  /** The key `set_answer` stores a question under. */
  function StoredKey(question: string): (r: string)
    ensures |r| == |question| && NoCapitals(r)
    ensures Trimmed(question) <==> Trimmed(r)
  {
    Lower(question)
  }

  lemma {:induction false} LowerAppend(a: string, b: string)
    ensures Lower(a + b) == Lower(a) + Lower(b)
  {
    if a == [] {
      assert a + b == b;
    } else {
      assert (a + b)[1..] == a[1..] + b;
      LowerAppend(a[1..], b);
    }
  }

  lemma LowerKeepsSpacing(s: string)
    ensures AllSpace(s) ==> AllSpace(Lower(s))
    ensures Trimmed(s) ==> Trimmed(Lower(s))
  {
  }

  /**
   * Matching ignores case and surrounding whitespace: a message made of a
   * stored question in any letter case, padded with whitespace, produces
   * exactly the key the question was stored under.
   */
  lemma {:induction false} LookupIgnoresCaseAndPadding(pre: string, q: string, post: string)
    requires AllSpace(pre) && AllSpace(post) && Trimmed(q)
    ensures LookupKey(pre + q + post) == StoredKey(q)
  {
    LowerAppend(pre + q, post);
    LowerAppend(pre, q);
    LowerKeepsSpacing(pre);
    LowerKeepsSpacing(q);
    LowerKeepsSpacing(post);
    StripSurrounded(Lower(pre), Lower(q), Lower(post));
  }

  /**
   * `set_answer` does not strip: a question stored with leading or trailing
   * whitespace can never be matched by any message.
   */
  lemma UntrimmedQuestionNeverMatches(question: string, content: string)
    requires !Trimmed(question)
    ensures LookupKey(content) != StoredKey(question)
  {
    StripSpec(Lower(content));
    LowerKeepsSpacing(question);
    var k := StoredKey(question);
    assert k != [] && (IsSpace(k[0]) || IsSpace(k[|k| - 1])) by {
      assert IsSpace(question[0]) || IsSpace(question[|question| - 1]);
    }
  }

  /** A slice of a text without capitals has none either. */
  lemma SliceNoCapitals(s: string, i: int, j: int)
    requires NoCapitals(s) && 0 <= i <= j <= |s|
    ensures NoCapitals(s[i..j])
  {
    forall k | 0 <= k < j - i ensures !('A' <= s[i..j][k] <= 'Z') {
      assert s[i..j][k] == s[i + k];
    }
  }
}
