/**
 * searchTransactions: validate the two ranges, keep the transactions that
 * satisfy every supplied filter clause, order them newest first and cut out
 * the requested page.
 */
module TransactionSearch {
  import opened Wrappers
  import opened TransactionTypes
  import opened Entities
  import opened Sequences

  /** The page index a request carries when none is given. */
  const DEFAULT_PAGE: int := 0

  /** The page size a request carries when none is given. */
  const DEFAULT_SIZE: int := 10

  /** AccountTransactionSearchRequest: every filter optional; page and size are plain ints. */
  datatype SearchRequest = SearchRequest(
    accountId: Option<Uuid>,
    fromDate: Option<Instant>,
    toDate: Option<Instant>,
    transactionType: Option<TransactionType>,
    minAmount: Option<Money>,
    maxAmount: Option<Money>,
    page: int,
    size: int)

  /** A request with no filters and the default paging. */
  function EmptySearchRequest(): SearchRequest
  {
    SearchRequest(None, None, None, None, None, None, DEFAULT_PAGE, DEFAULT_SIZE)
  }

  /** The part of Spring's Page the service exposes: one page and the full match count. */
  datatype Page = Page(content: seq<AccountTransaction>, totalElements: nat)

  /** The conjunction of the supplied clauses; an absent clause imposes nothing. */
  predicate Matches(req: SearchRequest, t: AccountTransaction)
  {
    && (req.accountId.Some? ==> t.accountId == req.accountId.value)
    && (req.fromDate.Some? ==> t.transactionDate >= req.fromDate.value)
    && (req.toDate.Some? ==> t.transactionDate <= req.toDate.value)
    && (req.transactionType.Some? ==> t.transactionType == req.transactionType.value)
    && (req.minAmount.Some? ==> t.amount >= req.minAmount.value)
    && (req.maxAmount.Some? ==> t.amount <= req.maxAmount.value)
  }

  /** The stored transactions the query selects, in store order. */
  function MatchingTransactions(ts: seq<AccountTransaction>, req: SearchRequest): seq<AccountTransaction>
  {
    Filter(ts, (t: AccountTransaction) => Matches(req, t))
  }

  /** The number of stored transactions that satisfy the clauses, counted directly. */
  function CountMatches(ts: seq<AccountTransaction>, req: SearchRequest): nat
  {
    if ts == [] then 0 else (if Matches(req, ts[0]) then 1 else 0) + CountMatches(ts[1..], req)
  }

  /** Both bounds of the date range are present and the start is after the end. */
  predicate DateRangeInverted(req: SearchRequest)
  {
    req.fromDate.Some? && req.toDate.Some? && req.fromDate.value > req.toDate.value
  }

  /** Both bounds of the amount range are present and the minimum exceeds the maximum. */
  predicate AmountRangeInverted(req: SearchRequest)
  {
    req.minAmount.Some? && req.maxAmount.Some? && req.minAmount.value > req.maxAmount.value
  }

  /** PageRequest.of accepts a page index of at least zero and a size of at least one. */
  predicate PagingValid(req: SearchRequest)
  {
    req.page >= 0 && req.size >= 1
  }

  /** Transactions ordered by transactionDate, newest first. */
  predicate NewestFirst(s: seq<AccountTransaction>)
  {
    forall i, j :: 0 <= i < j < |s| ==> s[i].transactionDate >= s[j].transactionDate
  }

  /** Place `t` in front of the first strictly older transaction. */
  function Insert(t: AccountTransaction, s: seq<AccountTransaction>): seq<AccountTransaction>
  {
    if s == [] || t.transactionDate >= s[0].transactionDate then [t] + s
    else [s[0]] + Insert(t, s[1..])
  }

  /** Sort.by(DESC, "transactionDate"), stable on equal dates. */
  function SortNewestFirst(s: seq<AccountTransaction>): seq<AccountTransaction>
  {
    if s == [] then [] else Insert(s[0], SortNewestFirst(s[1..]))
  }

  /** The slice PageRequest.of(page, size) selects: from page * size, at most size items. */
  function PageOf(s: seq<AccountTransaction>, page: nat, size: nat): seq<AccountTransaction>
  {
    var offset := page * size;
    if offset >= |s| then []
    else if offset + size <= |s| then s[offset..offset + size]
    else s[offset..]
  }

  /**
   * The whole query. The date range is checked first, then the amount
   * range; PageRequest.of then rejects a negative page or a size below one.
   */
  function Search(ts: seq<AccountTransaction>, req: SearchRequest): (r: Result<Page, Error>)
    ensures DateRangeInverted(req) ==> r == Failure(InvalidDateRange)
    ensures !DateRangeInverted(req) && AmountRangeInverted(req) ==> r == Failure(InvalidAmountRange)
    ensures r.Success? <==> !DateRangeInverted(req) && !AmountRangeInverted(req) && PagingValid(req)
    ensures r.Success? ==> |r.value.content| <= req.size
  {
    if DateRangeInverted(req) then Failure(InvalidDateRange)
    else if AmountRangeInverted(req) then Failure(InvalidAmountRange)
    else if !PagingValid(req) then Failure(InvalidPageRequest)
    else
      var matching := MatchingTransactions(ts, req);
      Success(Page(PageOf(SortNewestFirst(matching), req.page, req.size), |matching|))
  }

  /** A valid request's result, spelled out. */
  lemma SearchUnfolds(ts: seq<AccountTransaction>, req: SearchRequest)
    requires !DateRangeInverted(req) && !AmountRangeInverted(req) && PagingValid(req)
    ensures Search(ts, req) ==
              Success(Page(PageOf(SortNewestFirst(MatchingTransactions(ts, req)), req.page, req.size),
                           |MatchingTransactions(ts, req)|))
  {
  }

  /** The page that holds the item at index i. */
  lemma PageHolding(i: nat, size: int)
    requires size >= 1
    ensures (i / size) * size <= i < (i / size) * size + size
  {
  }

  /** Some page holds the item at index i. */
  lemma PageOfIndex(s: seq<AccountTransaction>, i: nat, size: int) returns (p: nat)
    requires i < |s| && size >= 1
    ensures s[i] in PageOf(s, p, size)
  {
    p := i / size;
    PageHolding(i, size);
    PageContains(s, i, p, size);
  }

  /** The item at index i lies on page i / size. */
  lemma PageContains(s: seq<AccountTransaction>, i: nat, p: nat, size: nat)
    requires i < |s|
    requires p * size <= i < p * size + size
    ensures s[i] in PageOf(s, p, size)
  {
    var offset := p * size;
    var k := i - offset;
    if offset + size <= |s| {
      assert PageOf(s, p, size) == s[offset..offset + size];
      assert s[offset..offset + size][k] == s[i];
    } else {
      assert PageOf(s, p, size) == s[offset..];
      assert s[offset..][k] == s[i];
    }
  }

  /** Inserting adds exactly one element. */
  lemma {:induction false} InsertPermutes(t: AccountTransaction, s: seq<AccountTransaction>)
    ensures multiset(Insert(t, s)) == multiset(s) + multiset{t}
  {
    if s != [] && t.transactionDate < s[0].transactionDate {
      InsertPermutes(t, s[1..]);
      assert s == [s[0]] + s[1..];
    }
  }

  /** Inserting into a newest-first sequence keeps it newest first. */
  lemma {:induction false} InsertKeepsOrder(t: AccountTransaction, s: seq<AccountTransaction>)
    requires NewestFirst(s)
    ensures NewestFirst(Insert(t, s))
  {
    if s != [] && t.transactionDate < s[0].transactionDate {
      var rest := Insert(t, s[1..]);
      InsertKeepsOrder(t, s[1..]);
      InsertPermutes(t, s[1..]);
      forall k | 0 <= k < |rest| ensures rest[k].transactionDate <= s[0].transactionDate {
        assert rest[k] in multiset(rest);
        if rest[k] != t {
          assert rest[k] in multiset(s[1..]);
          var m :| 0 <= m < |s[1..]| && s[1..][m] == rest[k];
          assert s[m + 1] == rest[k];
        }
      }
      var r := Insert(t, s);
      assert r == [s[0]] + rest;
      forall i, j | 0 <= i < j < |r| ensures r[i].transactionDate >= r[j].transactionDate {
        if i == 0 { assert r[j] == rest[j - 1]; } else { assert r[i] == rest[i - 1] && r[j] == rest[j - 1]; }
      }
    }
  }

  /** The sort orders newest first and keeps every transaction exactly once. */
  lemma {:induction false} SortNewestFirstCorrect(s: seq<AccountTransaction>)
    ensures NewestFirst(SortNewestFirst(s))
    ensures multiset(SortNewestFirst(s)) == multiset(s)
    ensures |SortNewestFirst(s)| == |s|
  {
    if s != [] {
      var rest := SortNewestFirst(s[1..]);
      SortNewestFirstCorrect(s[1..]);
      InsertKeepsOrder(s[0], rest);
      InsertPermutes(s[0], rest);
      assert SortNewestFirst(s) == Insert(s[0], rest);
      assert s == [s[0]] + s[1..];
      assert multiset(s) == multiset(s[1..]) + multiset{s[0]};
      assert |multiset(Insert(s[0], rest))| == |Insert(s[0], rest)|;
      assert |multiset(s)| == |s|;
    }
  }

  /** The filter keeps exactly as many transactions as the direct count says. */
  lemma {:induction false} MatchingCount(ts: seq<AccountTransaction>, req: SearchRequest)
    ensures |MatchingTransactions(ts, req)| == CountMatches(ts, req)
  {
    if ts != [] {
      MatchingCount(ts[1..], req);
    }
  }

  /** A page is a run of consecutive items of the sorted sequence. */
  lemma PageOfIsSlice(s: seq<AccountTransaction>, page: nat, size: nat)
    ensures |PageOf(s, page, size)| <= size
    ensures forall k :: 0 <= k < |PageOf(s, page, size)| ==>
              page * size + k < |s| && PageOf(s, page, size)[k] == s[page * size + k]
  {
  }

  /** A slice of a newest-first sequence is newest first. */
  lemma PageKeepsOrder(s: seq<AccountTransaction>, page: nat, size: nat)
    requires NewestFirst(s)
    ensures NewestFirst(PageOf(s, page, size))
  {
    var r := PageOf(s, page, size);
    PageOfIsSlice(s, page, size);
    forall i, j | 0 <= i < j < |r| ensures r[i].transactionDate >= r[j].transactionDate {
      assert r[i] == s[page * size + i] && r[j] == s[page * size + j];
    }
  }

  /** Every item of a result page is a stored transaction that satisfies every supplied clause. */
  lemma SearchContentMatches(ts: seq<AccountTransaction>, req: SearchRequest)
    requires Search(ts, req).Success?
    ensures forall t :: t in Search(ts, req).value.content ==> t in ts && Matches(req, t)
  {
    var matching := MatchingTransactions(ts, req);
    var sorted := SortNewestFirst(matching);
    SortNewestFirstCorrect(matching);
    FilterMembers(ts, (t: AccountTransaction) => Matches(req, t));
    PageOfIsSlice(sorted, req.page, req.size);
    forall t | t in Search(ts, req).value.content ensures t in ts && Matches(req, t) {
      var k :| 0 <= k < |PageOf(sorted, req.page, req.size)| && PageOf(sorted, req.page, req.size)[k] == t;
      assert sorted[req.page * req.size + k] == t;
      assert t in multiset(sorted);
      assert t in matching;
    }
  }

  /** A result page is ordered by transaction date, newest first. */
  lemma SearchContentNewestFirst(ts: seq<AccountTransaction>, req: SearchRequest)
    requires Search(ts, req).Success?
    ensures NewestFirst(Search(ts, req).value.content)
  {
    var sorted := SortNewestFirst(MatchingTransactions(ts, req));
    SortNewestFirstCorrect(MatchingTransactions(ts, req));
    SearchUnfolds(ts, req);
    PageKeepsOrder(sorted, req.page, req.size);
  }

  /** The reported total is the number of stored transactions matching the clauses. */
  lemma SearchTotalIsMatchCount(ts: seq<AccountTransaction>, req: SearchRequest)
    requires Search(ts, req).Success?
    ensures Search(ts, req).value.totalElements == CountMatches(ts, req)
  {
    MatchingCount(ts, req);
  }

  /** Every matching transaction appears on some page of the same query. */
  lemma SearchFindsEveryMatch(ts: seq<AccountTransaction>, req: SearchRequest, t: AccountTransaction)
    requires Search(ts, req).Success?
    requires t in ts && Matches(req, t)
    ensures exists p: nat :: t in Search(ts, req.(page := p)).value.content
  {
    var matching := MatchingTransactions(ts, req);
    var sorted := SortNewestFirst(matching);
    FilterMembers(ts, (t: AccountTransaction) => Matches(req, t));
    SortNewestFirstCorrect(matching);
    assert t in multiset(sorted);
    var i :| 0 <= i < |sorted| && sorted[i] == t;
    var p := PageOfIndex(sorted, i, req.size);
    var req' := req.(page := p);
    FilterCongruent(ts, (t: AccountTransaction) => Matches(req, t), (t: AccountTransaction) => Matches(req', t));
    assert MatchingTransactions(ts, req') == matching;
    SearchUnfolds(ts, req');
    assert Search(ts, req').value.content == PageOf(sorted, p, req.size);
    assert t in Search(ts, req').value.content;
  }

  /** Equal bounds are accepted: a one-instant, one-amount window selects exactly that. */
  lemma SearchAcceptsEqualBounds(ts: seq<AccountTransaction>, req: SearchRequest, at: Instant, amount: Money)
    requires req.fromDate == Some(at) && req.toDate == Some(at)
    requires req.minAmount == Some(amount) && req.maxAmount == Some(amount)
    requires PagingValid(req)
    ensures Search(ts, req).Success?
    ensures forall t :: t in Search(ts, req).value.content ==> t.transactionDate == at && t.amount == amount
  {
    SearchContentMatches(ts, req);
  }

  /** A first page at least as large as the match count holds every match. */
  lemma FirstPageHoldsAllMatches(ts: seq<AccountTransaction>, req: SearchRequest)
    requires !DateRangeInverted(req) && !AmountRangeInverted(req)
    requires req.page == 0 && req.size >= 1 && req.size >= |MatchingTransactions(ts, req)|
    ensures Search(ts, req).Success?
    ensures Search(ts, req).value.totalElements == |MatchingTransactions(ts, req)|
    ensures multiset(Search(ts, req).value.content) == multiset(MatchingTransactions(ts, req))
  {
    var matching := MatchingTransactions(ts, req);
    SortNewestFirstCorrect(matching);
    SearchUnfolds(ts, req);
    var sorted := SortNewestFirst(matching);
    assert PageOf(sorted, 0, req.size) == sorted by {
      assert 0 * req.size == 0;
      if |sorted| > 0 && req.size == |sorted| { assert sorted[0..req.size] == sorted; }
      if |sorted| > 0 && req.size > |sorted| { assert sorted[0..] == sorted; }
    }
  }

  /** With no clause supplied, the query counts every stored transaction and page 0 can hold them all. */
  lemma SearchWithoutClauses(ts: seq<AccountTransaction>, size: int)
    requires size >= |ts| && size >= 1
    ensures Search(ts, EmptySearchRequest().(size := size)).Success?
    ensures Search(ts, EmptySearchRequest().(size := size)).value.totalElements == |ts|
    ensures multiset(Search(ts, EmptySearchRequest().(size := size)).value.content) == multiset(ts)
  {
    var req := EmptySearchRequest().(size := size);
    FilterKeepsAll(ts, (t: AccountTransaction) => Matches(req, t));
    assert MatchingTransactions(ts, req) == ts;
    FirstPageHoldsAllMatches(ts, req);
  }
}
