/** The signature a postcard may carry; the editor and the server apply the same pattern. */
module Alias {
  predicate AliasChar(c: char) {
    'A' <= c <= 'Z' || 'a' <= c <= 'z' || '0' <= c <= '9' || c == ' ' || c == '_' || c == '-'
  }

  predicate IsAlias(s: string) {
    |s| <= 16 && forall c :: c in s ==> AliasChar(c)
  }

  /** ASCII codes of A-Z, a-z, 0-9, blank, underscore and hyphen. */
  predicate AcceptableCode(n: int) {
    65 <= n <= 90 || 97 <= n <= 122 || 48 <= n <= 57 || n == 32 || n == 95 || n == 45
  }

  /** An alias is any text of at most sixteen such characters. */
  lemma AliasIs(s: string)
    ensures IsAlias(s) <==> |s| <= 16 && forall i :: 0 <= i < |s| ==> AcceptableCode(s[i] as int)
  {
    forall i | 0 <= i < |s| ensures AliasChar(s[i]) <==> AcceptableCode(s[i] as int) { CodeIsAcceptable(s[i]); }
    assert (forall c :: c in s ==> AliasChar(c)) <==> forall i :: 0 <= i < |s| ==> AliasChar(s[i]);
  }

  lemma CodeIsAcceptable(c: char)
    ensures AliasChar(c) <==> AcceptableCode(c as int)
  {
  }
}
