/** The transaction kinds {DEPOSIT, WITHDRAW}, their labels and the fromValue lookup. */
module TransactionTypes {
  import opened Wrappers
  import opened CaseFolding
  import opened LabelLookup

  datatype TransactionType = DEPOSIT | WITHDRAW

  /** getValue: the label each constant is declared with. */
  function Label(t: TransactionType): string
  {
    match t
    case DEPOSIT => "yatırma"
    case WITHDRAW => "çekme"
  }

  /** values(): the constants in declaration order. */
  function Values(): seq<TransactionType>
  {
    [DEPOSIT, WITHDRAW]
  }

  /** The value fromValue computes: the first constant whose label matches. */
  function Parse(text: string): Option<TransactionType>
  {
    FirstMatch(Values(), Label, text)
  }

  /**
   * fromValue: a linear search over values() with an early return; None
   * stands for the null returned when no label matches.
   */
  method FromValue(text: string) returns (r: Option<TransactionType>)
    ensures r == Parse(text)
    ensures r.Some? ==> EqualsIgnoreCase(Label(r.value), text)
    ensures r.None? <==> forall t: TransactionType :: !EqualsIgnoreCase(Label(t), text)
  {
    var values := Values();
    var i := 0;
    while i < |values|
      invariant 0 <= i <= |values|
      invariant forall j :: 0 <= j < i ==> !EqualsIgnoreCase(Label(values[j]), text)
      invariant FirstMatch(values[i..], Label, text) == Parse(text)
    {
      if EqualsIgnoreCase(Label(values[i]), text) {
        return Some(values[i]);
      }
      i := i + 1;
    }
    return None;
  }

  /** The search tries DEPOSIT, then WITHDRAW. */
  lemma ParseInDeclarationOrder(text: string)
    ensures Parse(text) ==
              if EqualsIgnoreCase("yatırma", text) then Some(DEPOSIT)
              else if EqualsIgnoreCase("çekme", text) then Some(WITHDRAW)
              else None
  {
    var vs := Values();
    assert vs[1..] == [WITHDRAW] && vs[1..][1..] == [];
    assert FirstMatch([WITHDRAW], Label, text) == if EqualsIgnoreCase("çekme", text) then Some(WITHDRAW) else None;
  }

  /** The two labels differ even ignoring case. */
  lemma LabelsAreDistinct()
    ensures LabelsDistinct(Values(), Label)
  {
    assert !EqualsIgnoreCase(Label(DEPOSIT), Label(WITHDRAW));
    assert !EqualsIgnoreCase(Label(WITHDRAW), Label(DEPOSIT));
  }

  /** Round trip: fromValue(t.getValue()) == t for every constant. */
  lemma ParseLabel(t: TransactionType)
    ensures Parse(Label(t)) == Some(t)
  {
    LabelsAreDistinct();
    var k := if t == DEPOSIT then 0 else 1;
    FirstMatchRoundTrip(Values(), Label, k);
  }

  /** A returned constant's label equals the text ignoring case, and no earlier constant's does. */
  lemma ParseSound(text: string)
    ensures Parse(text) == Some(DEPOSIT) ==> EqualsIgnoreCase("yatırma", text)
    ensures Parse(text) == Some(WITHDRAW) ==> EqualsIgnoreCase("çekme", text) && !EqualsIgnoreCase("yatırma", text)
  {
    FirstMatchSound(Values(), Label, text);
  }

  /** The lookup returns null exactly when the text matches no label. */
  lemma ParseNone(text: string)
    ensures Parse(text).None? <==> !EqualsIgnoreCase("yatırma", text) && !EqualsIgnoreCase("çekme", text)
  {
    FirstMatchNone(Values(), Label, text);
  }

  /** The match ignores case: texts equal ignoring case resolve alike. */
  lemma ParseIgnoresCase(a: string, b: string)
    requires EqualsIgnoreCase(a, b)
    ensures Parse(a) == Parse(b)
  {
    FirstMatchIgnoresCase(Values(), Label, a, b);
  }

  /** The declared labels resolve to their constants. */
  lemma ParseDeclaredLabels()
    ensures Parse("yatırma") == Some(DEPOSIT) && Parse("çekme") == Some(WITHDRAW)
  {
    ParseInDeclarationOrder("yatırma");
    ParseInDeclarationOrder("çekme");
  }

  /** An upper-case label resolves too; Java upper-cases ı to I. */
  lemma ParseUpperCase()
    ensures Parse("YATIRMA") == Some(DEPOSIT)
  {
    assert EqualsIgnoreCase("yatırma", "YATIRMA");
    ParseInDeclarationOrder("YATIRMA");
  }

  /** Turkish upper case, with a capital Ç, resolves too. */
  lemma ParseTurkishUpperCase()
    ensures Parse("ÇEKME") == Some(WITHDRAW)
  {
    assert !EqualsIgnoreCase("yatırma", "ÇEKME") && EqualsIgnoreCase("çekme", "ÇEKME");
    ParseInDeclarationOrder("ÇEKME");
  }

  /** A dotted i matches the dotless ı, since both upper-case to I. */
  lemma ParseDottedI()
    ensures Parse("yatirma") == Some(DEPOSIT)
  {
    assert EqualsIgnoreCase("yatırma", "yatirma");
    ParseInDeclarationOrder("yatirma");
  }

  /** A constant's name is not its label, so it resolves to null. */
  lemma ParseUnknown()
    ensures Parse("DEPOSIT") == None && Parse("") == None
  {
    ParseInDeclarationOrder("DEPOSIT");
    ParseInDeclarationOrder("");
  }
}
