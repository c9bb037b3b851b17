/**
 * Java's String.equalsIgnoreCase, character by character.
 *
 * Two strings are equal ignoring case when they have the same length and at
 * every position the characters c1, c2 satisfy c1 == c2, or
 * toUpperCase(c1) == toUpperCase(c2), or
 * toLowerCase(toUpperCase(c1)) == toLowerCase(toUpperCase(c2)).
 * The per-character case maps cover ASCII, the Latin-1 letters except ÿ
 * and µ (whose capitals lie outside Latin-1) and the Turkish letters the
 * labels of this system use (ç, ğ, ı, İ, ö, ş, ü); every other character,
 * ÿ and µ included, is treated as having no case.
 */
module CaseFolding {

  /** Character.toUpperCase on the covered letters. */
  function ToUpper(c: char): char
  {
    if 'a' <= c <= 'z' then (c as int - 32) as char
    // Latin-1 small letters à..þ except the division sign ÷ (ÿ and µ are left out)
    else if '\U{00E0}' <= c <= '\U{00FE}' && c != '\U{00F7}' then (c as int - 32) as char
    else if c == 'ğ' then 'Ğ'
    else if c == 'ı' then 'I'
    else if c == 'ş' then 'Ş'
    else c
  }

  /** Character.toLowerCase on the covered letters. */
  function ToLower(c: char): char
  {
    if 'A' <= c <= 'Z' then (c as int + 32) as char
    // Latin-1 capital letters À..Þ except the multiplication sign ×
    else if '\U{00C0}' <= c <= '\U{00DE}' && c != '\U{00D7}' then (c as int + 32) as char
    else if c == 'Ğ' then 'ğ'
    else if c == 'İ' then 'i'
    else if c == 'Ş' then 'ş'
    else c
  }

  /** The three-step per-character comparison of equalsIgnoreCase. */
  predicate CharEqualsIgnoreCase(a: char, b: char)
  {
    a == b || ToUpper(a) == ToUpper(b) || ToLower(ToUpper(a)) == ToLower(ToUpper(b))
  }

  /** The case-folded form of a character: what the last step compares. */
  function Fold(c: char): char
  {
    ToLower(ToUpper(c))
  }

  /** Java's String.equalsIgnoreCase. */
  predicate EqualsIgnoreCase(s: string, t: string)
  {
    |s| == |t| && (s == [] || (CharEqualsIgnoreCase(s[0], t[0]) && EqualsIgnoreCase(s[1..], t[1..])))
  }

  /** The per-character comparison is exactly equality of folded forms. */
  lemma CharEqualsIgnoreCaseIsFoldEquality(a: char, b: char)
    ensures CharEqualsIgnoreCase(a, b) <==> Fold(a) == Fold(b)
  {
  }

  /** equalsIgnoreCase holds exactly when the lengths agree and every position folds alike. */
  lemma {:induction false} EqualsIgnoreCaseAt(s: string, t: string)
    ensures EqualsIgnoreCase(s, t) <==> |s| == |t| && forall i :: 0 <= i < |s| ==> Fold(s[i]) == Fold(t[i])
  {
    if s != [] && |s| == |t| {
      EqualsIgnoreCaseAt(s[1..], t[1..]);
      CharEqualsIgnoreCaseIsFoldEquality(s[0], t[0]);
      if EqualsIgnoreCase(s, t) {
        forall i | 0 <= i < |s| ensures Fold(s[i]) == Fold(t[i]) {
          if i > 0 { assert s[i] == s[1..][i - 1] && t[i] == t[1..][i - 1]; }
        }
      } else if forall i :: 0 <= i < |s| ==> Fold(s[i]) == Fold(t[i]) {
        forall i | 0 <= i < |s| - 1 ensures Fold(s[1..][i]) == Fold(t[1..][i]) {
          assert s[1..][i] == s[i + 1] && t[1..][i] == t[i + 1];
        }
      }
    }
  }

  /** Every string equals itself ignoring case. */
  lemma EqualsIgnoreCaseReflexive(s: string)
    ensures EqualsIgnoreCase(s, s)
  {
    EqualsIgnoreCaseAt(s, s);
  }

  /** equalsIgnoreCase is symmetric. */
  lemma EqualsIgnoreCaseSymmetric(s: string, t: string)
    ensures EqualsIgnoreCase(s, t) ==> EqualsIgnoreCase(t, s)
  {
    EqualsIgnoreCaseAt(s, t);
    EqualsIgnoreCaseAt(t, s);
  }

  /** equalsIgnoreCase is transitive, so it is an equivalence on strings. */
  lemma EqualsIgnoreCaseTransitive(s: string, t: string, u: string)
    ensures EqualsIgnoreCase(s, t) && EqualsIgnoreCase(t, u) ==> EqualsIgnoreCase(s, u)
  {
    EqualsIgnoreCaseAt(s, t);
    EqualsIgnoreCaseAt(t, u);
    EqualsIgnoreCaseAt(s, u);
  }
}
