/** The account currencies {TL, USD, GBP}, their labels and the fromValue lookup. */
module AccountTypes {
  import opened Wrappers
  import opened CaseFolding
  import opened LabelLookup

  datatype AccountType = TL | USD | GBP

  /** getValue: the label each constant is declared with. */
  function Label(a: AccountType): string
  {
    match a
    case TL => "tl"
    case USD => "dolar"
    case GBP => "sterlin"
  }

  /** values(): the constants in declaration order. */
  function Values(): seq<AccountType>
  {
    [TL, USD, GBP]
  }

  /** The value fromValue computes: the first constant whose label matches. */
  function Parse(text: string): Option<AccountType>
  {
    FirstMatch(Values(), Label, text)
  }

  /**
   * fromValue: a linear search over values() with an early return; None
   * stands for the null returned when no label matches.
   */
  method FromValue(text: string) returns (r: Option<AccountType>)
    ensures r == Parse(text)
    ensures r.Some? ==> EqualsIgnoreCase(Label(r.value), text)
    ensures r.None? <==> forall a: AccountType :: !EqualsIgnoreCase(Label(a), text)
  {
    var values := Values();
    var i := 0;
    while i < |values|
      invariant 0 <= i <= |values|
      invariant forall j :: 0 <= j < i ==> !EqualsIgnoreCase(Label(values[j]), text)
      invariant FirstMatch(values[i..], Label, text) == Parse(text)
    {
      if EqualsIgnoreCase(Label(values[i]), text) {
        return Some(values[i]);
      }
      i := i + 1;
    }
    assert values[0] == TL && values[1] == USD && values[2] == GBP;
    return None;
  }

  /** The search tries TL, then USD, then GBP. */
  lemma ParseInDeclarationOrder(text: string)
    ensures Parse(text) ==
              if EqualsIgnoreCase("tl", text) then Some(TL)
              else if EqualsIgnoreCase("dolar", text) then Some(USD)
              else if EqualsIgnoreCase("sterlin", text) then Some(GBP)
              else None
  {
    var vs := Values();
    assert vs[1..] == [USD, GBP] && vs[1..][1..] == [GBP] && vs[1..][1..][1..] == [];
    assert FirstMatch([GBP], Label, text) == if EqualsIgnoreCase("sterlin", text) then Some(GBP) else None;
    assert FirstMatch([USD, GBP], Label, text) ==
             if EqualsIgnoreCase("dolar", text) then Some(USD) else FirstMatch([GBP], Label, text);
  }

  /** The three labels differ even ignoring case (they differ in length). */
  lemma LabelsAreDistinct()
    ensures LabelsDistinct(Values(), Label)
  {
  }

  /** Round trip: fromValue(a.getValue()) == a for every constant. */
  lemma ParseLabel(a: AccountType)
    ensures Parse(Label(a)) == Some(a)
  {
    LabelsAreDistinct();
    var k := match a case TL => 0 case USD => 1 case GBP => 2;
    FirstMatchRoundTrip(Values(), Label, k);
  }

  /** A returned constant's label equals the text ignoring case, and no earlier constant's does. */
  lemma ParseSound(text: string)
    ensures Parse(text) == Some(TL) ==> EqualsIgnoreCase("tl", text)
    ensures Parse(text) == Some(USD) ==> EqualsIgnoreCase("dolar", text) && !EqualsIgnoreCase("tl", text)
    ensures Parse(text) == Some(GBP) ==>
              EqualsIgnoreCase("sterlin", text) && !EqualsIgnoreCase("tl", text) && !EqualsIgnoreCase("dolar", text)
  {
    FirstMatchSound(Values(), Label, text);
  }

  /** The lookup returns null exactly when the text matches no label. */
  lemma ParseNone(text: string)
    ensures Parse(text).None? <==>
              !EqualsIgnoreCase("tl", text) && !EqualsIgnoreCase("dolar", text) && !EqualsIgnoreCase("sterlin", text)
  {
    FirstMatchNone(Values(), Label, text);
    assert Values()[0] == TL && Values()[1] == USD && Values()[2] == GBP;
  }

  /** The match ignores case: texts equal ignoring case resolve alike. */
  lemma ParseIgnoresCase(a: string, b: string)
    requires EqualsIgnoreCase(a, b)
    ensures Parse(a) == Parse(b)
  {
    FirstMatchIgnoresCase(Values(), Label, a, b);
  }

  /** The declared labels resolve to their constants. */
  lemma ParseDeclaredLabels()
    ensures Parse("tl") == Some(TL) && Parse("dolar") == Some(USD) && Parse("sterlin") == Some(GBP)
  {
    ParseInDeclarationOrder("tl");
    ParseInDeclarationOrder("dolar");
    ParseInDeclarationOrder("sterlin");
  }

  /** An upper-case label resolves too. */
  lemma ParseUpperCase()
    ensures Parse("TL") == Some(TL)
  {
    ParseInDeclarationOrder("TL");
  }

  /** A capitalised label resolves too. */
  lemma ParseCapitalised()
    ensures Parse("Dolar") == Some(USD)
  {
    ParseInDeclarationOrder("Dolar");
  }

  /** Turkish upper case, with a dotted capital İ, resolves too. */
  lemma ParseTurkishUpperCase()
    ensures Parse("STERLİN") == Some(GBP)
  {
    assert EqualsIgnoreCase("sterlin", "STERLİN");
    ParseInDeclarationOrder("STERLİN");
  }

  /** A currency code is not a label, so it resolves to null. */
  lemma ParseUnknown()
    ensures Parse("USD") == None && Parse("") == None
  {
    ParseInDeclarationOrder("USD");
    ParseInDeclarationOrder("");
  }
}
