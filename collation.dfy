/**
 * How the database compares text. The users table is created under a
 * case-insensitive collation (utf8mb4_unicode_ci), so the email column's
 * unique index, the lookup by email and the lookup and delete by id all
 * treat `Ann@x.com` and `ann@x.com` as the same value. The model folds
 * ASCII upper-case letters to lower case and compares the folded keys.
 */
module Collation {

  /** One character as the collation sees it: ASCII letters without case. */
  function FoldChar(c: char): (f: char)
    ensures !('A' <= f <= 'Z')
    ensures 'A' <= c <= 'Z' ==> f as int == c as int + 32
    ensures 'a' <= f <= 'z' ==> f == c || f as int == c as int + 32
    ensures !('A' <= c <= 'Z') ==> f == c
  {
    if 'A' <= c <= 'Z' then (c as int + 32) as char else c
  }

  /** The key two strings share exactly when the collation finds them equal. */
  function Key(s: string): (k: string)
    ensures |k| == |s|
    ensures forall i :: 0 <= i < |s| ==> k[i] == FoldChar(s[i])
    ensures forall i :: 0 <= i < |k| ==> !('A' <= k[i] <= 'Z')
  {
    seq(|s|, i requires 0 <= i < |s| => FoldChar(s[i]))
  }

  /** A key is its own key: folding twice is folding once. */
  lemma KeyIsIdempotent(s: string)
    ensures Key(Key(s)) == Key(s)
  {
  }

  /** A string without upper-case letters is its own key. */
  lemma {:induction false} LowerCaseIsOwnKey(s: string)
    requires forall i :: 0 <= i < |s| ==> !('A' <= s[i] <= 'Z')
    ensures Key(s) == s
  {
    forall i | 0 <= i < |s|
      ensures Key(s)[i] == s[i]
    {
    }
  }

  /** Keys are taken character by character, so the key of a concatenation is the concatenation of the keys. */
  lemma {:induction false} KeyAppend(a: string, b: string)
    ensures Key(a + b) == Key(a) + Key(b)
  {
    forall i | 0 <= i < |a + b|
      ensures Key(a + b)[i] == (Key(a) + Key(b))[i]
    {
      if i >= |a| {
        assert (a + b)[i] == b[i - |a|];
      }
    }
  }

  /** `t` is the key of `s` when it folds `s` character by character. */
  lemma KeyIsFoldedString(s: string, t: string)
    requires |s| == |t|
    requires forall i :: 0 <= i < |s| ==> FoldChar(s[i]) == t[i]
    ensures Key(s) == t
  {
  }

  /** The collation matches an email whatever the case of its letters. */
  lemma EmailSpellingsCollide()
    ensures Key("Ann@x.com") == Key("ann@x.com") == "ann@x.com"
    ensures "Ann@x.com" != "ann@x.com"
  {
    assert Key("Ann@x.com")[0] == 'a';
  }
}
