/**
 * The linear label search shared by the enums' fromValue: walk the constants
 * in declaration order and return the first whose label equals the text
 * ignoring case, or nothing when none does.
 */
module LabelLookup {
  import opened Wrappers
  import opened CaseFolding

  /** The first constant of `values` whose label matches `text`. */
  function FirstMatch<T>(values: seq<T>, labelOf: T -> string, text: string): Option<T>
  {
    if values == [] then None
    else if EqualsIgnoreCase(labelOf(values[0]), text) then Some(values[0])
    else FirstMatch(values[1..], labelOf, text)
  }

  /** A found constant is one of the values and its label matches the text. */
  lemma {:induction false} FirstMatchSound<T>(values: seq<T>, labelOf: T -> string, text: string)
    ensures FirstMatch(values, labelOf, text).Some? ==>
              FirstMatch(values, labelOf, text).value in values &&
              EqualsIgnoreCase(labelOf(FirstMatch(values, labelOf, text).value), text)
  {
    if values != [] && !EqualsIgnoreCase(labelOf(values[0]), text) {
      FirstMatchSound(values[1..], labelOf, text);
    }
  }

  /** The search finds nothing exactly when no label matches. */
  lemma {:induction false} FirstMatchNone<T>(values: seq<T>, labelOf: T -> string, text: string)
    ensures FirstMatch(values, labelOf, text).None? <==>
              forall i :: 0 <= i < |values| ==> !EqualsIgnoreCase(labelOf(values[i]), text)
  {
    if values != [] {
      FirstMatchNone(values[1..], labelOf, text);
      assert forall i :: 0 < i < |values| ==> values[i] == values[1..][i - 1];
    }
  }

  /** A found constant sits at an index before which no label matches. */
  lemma {:induction false} FirstMatchIsFirst<T>(values: seq<T>, labelOf: T -> string, text: string)
    ensures FirstMatch(values, labelOf, text).Some? ==>
              exists k :: 0 <= k < |values| && values[k] == FirstMatch(values, labelOf, text).value &&
                          forall j :: 0 <= j < k ==> !EqualsIgnoreCase(labelOf(values[j]), text)
  {
    if values != [] && !EqualsIgnoreCase(labelOf(values[0]), text) && FirstMatch(values, labelOf, text).Some? {
      FirstMatchIsFirst(values[1..], labelOf, text);
      var k :| 0 <= k < |values| - 1 && values[1..][k] == FirstMatch(values, labelOf, text).value &&
                forall j :: 0 <= j < k ==> !EqualsIgnoreCase(labelOf(values[1..][j]), text);
      assert values[k + 1] == FirstMatch(values, labelOf, text).value;
      forall j | 0 <= j < k + 1 ensures !EqualsIgnoreCase(labelOf(values[j]), text) {
        if j > 0 { assert values[j] == values[1..][j - 1]; }
      }
    }
  }

  /** Texts that are equal ignoring case find the same constant. */
  lemma {:induction false} FirstMatchIgnoresCase<T>(values: seq<T>, labelOf: T -> string, a: string, b: string)
    requires EqualsIgnoreCase(a, b)
    ensures FirstMatch(values, labelOf, a) == FirstMatch(values, labelOf, b)
  {
    if values != [] {
      var l := labelOf(values[0]);
      EqualsIgnoreCaseSymmetric(a, b);
      EqualsIgnoreCaseTransitive(l, a, b);
      EqualsIgnoreCaseTransitive(l, b, a);
      FirstMatchIgnoresCase(values[1..], labelOf, a, b);
    }
  }

  /** No two distinct constants have labels that are equal ignoring case. */
  ghost predicate LabelsDistinct<T>(values: seq<T>, labelOf: T -> string)
  {
    forall i, j :: 0 <= i < |values| && 0 <= j < |values| && values[i] != values[j] ==>
      !EqualsIgnoreCase(labelOf(values[i]), labelOf(values[j]))
  }

  /** With distinct labels, looking up a constant's own label finds that constant. */
  lemma {:induction false} FirstMatchRoundTrip<T>(values: seq<T>, labelOf: T -> string, k: nat)
    requires k < |values|
    requires LabelsDistinct(values, labelOf)
    ensures FirstMatch(values, labelOf, labelOf(values[k])) == Some(values[k])
  {
    var text := labelOf(values[k]);
    if values[0] == values[k] {
      EqualsIgnoreCaseReflexive(text);
    } else {
      assert !EqualsIgnoreCase(labelOf(values[0]), text);
      assert k > 0;
      assert LabelsDistinct(values[1..], labelOf) by {
        forall i, j | 0 <= i < |values| - 1 && 0 <= j < |values| - 1 && values[1..][i] != values[1..][j]
          ensures !EqualsIgnoreCase(labelOf(values[1..][i]), labelOf(values[1..][j]))
        {
          assert values[1..][i] == values[i + 1] && values[1..][j] == values[j + 1];
        }
      }
      assert values[1..][k - 1] == values[k];
      FirstMatchRoundTrip(values[1..], labelOf, k - 1);
    }
  }
}
