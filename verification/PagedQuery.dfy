/** Paged queries: an iterator over the rows of a query whose pages a server gives one at a time,
    through a statement that stays open on the server between pages. */
module PagedQuery {
  import opened Wrappers

  const CAT_NO_ROWS_FOUND := -808000
  const MAX_SQL_ROWS := 256
  const UINT32 := 0x1_0000_0000

  type Row = seq<string>

  // ----- The server

  /** What follows the last page: nothing, an answer without rows, or an error. */
  datatype Ending = LastPage | NoRows | Fails(err: int)

  /** Everything a server has to say to one query. */
  datatype Script = Script(pages: seq<seq<Row>>, ending: Ending)

  /** Successful answers have rows, and an error is another one than the lack of rows. */
  predicate IsScript(s: Script) {
    && (forall k: nat :: k < |s.pages| ==> s.pages[k] != [])
    && (s.ending.LastPage? ==> s.pages != [])
    && (s.ending.Fails? ==> s.ending.err < 0 && s.ending.err != CAT_NO_ROWS_FOUND)
  }

  /** Whether the statement stays open after page `k`. */
  predicate More(s: Script, k: nat) {
    k + 1 < |s.pages| || !s.ending.LastPage?
  }

  datatype Output = Output(rows: seq<Row>, continueInx: int)

  /** The open statements with the page each is to give next; `log` lists the pages asked for, and
      `misused` is set once a statement that is not open is continued or closed. */
  datatype Statements = Statements(open: map<int, nat>, last: nat, log: seq<nat>, misused: bool)

  datatype Answer = Answer(statements: Statements, status: int, out: Option<Output>)

  predicate AreNumbered(st: Statements) {
    forall i :: i in st.open ==> 1 <= i <= st.last
  }

  /** Page `k` by the statement `i`, which is closed with the last page and on errors. */
  function ServePage(s: Script, st: Statements, i: int, k: nat): Answer {
    if k >= |s.pages| then
      var status := if s.ending.Fails? then s.ending.err else CAT_NO_ROWS_FOUND;
      Answer(st.(open := st.open - {i}, log := st.log + [k]), status, None)
    else if More(s, k) then
      Answer(st.(open := st.open[i := k + 1], log := st.log + [k]), 0, Some(Output(s.pages[k], i)))
    else
      Answer(st.(open := st.open - {i}, log := st.log + [k]), 0, Some(Output(s.pages[k], 0)))
  }

  /** A request: continue or, for no rows, close a statement; index zero opens a new one. */
  function Serve(s: Script, st: Statements, continueInx: int, maxRows: int): Answer {
    if continueInx == 0 && maxRows > 0 then
      ServePage(s, st.(last := st.last + 1), st.last + 1, 0)
    else if continueInx !in st.open then
      Answer(st.(misused := true), CAT_NO_ROWS_FOUND, None)
    else if maxRows > 0 then
      ServePage(s, st, continueInx, st.open[continueInx])
    else
      Answer(st.(open := st.open - {continueInx}), 0, None)
  }

  class Server {
    const script: Script
    var statements: Statements

    method Ask(continueInx: int, maxRows: int) returns (status: int, out: Option<Output>)
      modifies this
      ensures Answer(statements, status, out) == Serve(script, old(statements), continueInx, maxRows)
    {
      var answer := Serve(script, statements, continueInx, maxRows);
      statements := answer.statements;
      return answer.status, answer.out;
    }
  }

  // ----- Rows

  function RowsOf(pages: seq<seq<Row>>): seq<Row> {
    if pages == [] then [] else RowsOf(pages[..|pages| - 1]) + pages[|pages| - 1]
  }

  /** The number of the first row of page `k`. */
  function RowsBefore(s: Script, k: nat): nat
    requires k <= |s.pages|
  {
    |RowsOf(s.pages[..k])|
  }

  function AllRows(s: Script): seq<Row> {
    RowsOf(s.pages)
  }

  function Truncated(rows: seq<Row>, limit: nat): (r: seq<Row>) {
    if limit != 0 && limit < |rows| then rows[..limit] else rows
  }

  lemma RowsOfNext(s: Script, k: nat)
    requires k < |s.pages|
    ensures RowsOf(s.pages[..k + 1]) == RowsOf(s.pages[..k]) + s.pages[k]
  {
    assert s.pages[..k + 1][..k] == s.pages[..k];
  }

  lemma {:induction false} RowsBeforeArePrefix(s: Script, k: nat)
    requires k <= |s.pages|
    ensures RowsOf(s.pages[..k]) <= AllRows(s)
    decreases |s.pages| - k
  {
    hide RowsOf;
    if k == |s.pages| {
      assert s.pages[..k] == s.pages;
    } else {
      RowsOfNext(s, k);
      RowsBeforeArePrefix(s, k + 1);
    }
  }

  /** Where a row of a page stands among all the rows. */
  lemma RowOfPage(s: Script, k: nat, i: nat)
    requires k < |s.pages| && i < |s.pages[k]|
    ensures RowsBefore(s, k) + i < |AllRows(s)| && AllRows(s)[RowsBefore(s, k) + i] == s.pages[k][i]
    ensures RowsBefore(s, k + 1) == RowsBefore(s, k) + |s.pages[k]|
  {
    hide RowsOf;
    RowsOfNext(s, k);
    RowsBeforeArePrefix(s, k + 1);
  }

  lemma PageHasRows(s: Script, k: nat)
    requires IsScript(s)
    ensures k < |s.pages| ==> s.pages[k] != [] && RowsBefore(s, k) < |AllRows(s)|
    ensures s.ending.Fails? ==> s.ending.err < 0 && s.ending.err != CAT_NO_ROWS_FOUND
  {
    if k < |s.pages| {
      RowOfPage(s, k, 0);
    }
  }

  lemma RowsOfAll(s: Script)
    ensures RowsBefore(s, |s.pages|) == |AllRows(s)|
  {
    assert s.pages[..|s.pages|] == s.pages;
  }

  /** A number in 32 unsigned bits. */
  function Wrapped(n: nat): (r: nat)
    ensures r < UINT32 && (n < UINT32 ==> r == n)
  {
    n % UINT32
  }

  lemma WrapsOn(n: nat)
    ensures Wrapped(Wrapped(n) + 1) == Wrapped(n + 1)
  {
  }

  /** A number in 32 bits with a sign. */
  function AsInt(n: nat): int {
    if Wrapped(n) < UINT32 / 2 then Wrapped(n) else Wrapped(n) - UINT32
  }

  /** The limit is converted to an `int` and then to 32 unsigned bits on its way to the query. */
  function EffectiveLimit(limit: nat): (r: nat)
    ensures r == Wrapped(limit)
  {
    AsInt(limit) % UINT32
  }

  /** On given rows the limit that was asked for is kept when it fits 32 bits, and otherwise only if
      there are too few rows to tell. */
  lemma LimitIsKeptOn(rows: seq<Row>, limit: nat)
    ensures Truncated(rows, EffectiveLimit(limit)) == Truncated(rows, limit) <==>
              || limit < UINT32
              || |rows| <= (if EffectiveLimit(limit) == 0 then limit else EffectiveLimit(limit))
  {
    var e := EffectiveLimit(limit);
    if limit >= UINT32 {
      assert |Truncated(rows, e)| == if e != 0 && e < |rows| then e else |rows|;
      assert |Truncated(rows, limit)| == if limit < |rows| then limit else |rows|;
      if e != 0 && e < |rows| {
        assert e < limit;
      }
    }
  }

  /** A limit is kept on all rows exactly when it fits 32 bits. */
  lemma LimitIsKept(limit: nat)
    ensures (forall rows :: Truncated(rows, EffectiveLimit(limit)) == Truncated(rows, limit)) <==> limit < UINT32
  {
    hide Truncated;
    forall rows | limit < UINT32 ensures Truncated(rows, EffectiveLimit(limit)) == Truncated(rows, limit) {
      LimitIsKeptOn(rows, limit);
    }
    LimitIsKeptOn(seq(limit + 1, _ => []), limit);
  }

  lemma StopsThere(rows: seq<Row>, limit: nat, most: nat, n: nat)
    requires n <= |rows| && (limit == 0 || n <= limit) && (most == 0 || n <= most)
    requires n == |rows| || (n == limit && limit != 0) || (n == most && most != 0)
    ensures rows[..n] == Truncated(Truncated(rows, limit), most)
  {
    assert rows[..|rows|] == rows;
  }

  /** The numbers of the pages after `a`, up to `b`. */
  function PagesAfter(a: int, b: int): (ks: seq<nat>)
    requires -1 <= a <= b
    ensures |ks| == b - a
  {
    seq(b - a, i requires 0 <= i < b - a => a + 1 + i)
  }

  lemma PagesFollow(log: seq<nat>, a: nat, b: nat, c: nat)
    requires a <= b <= c
    ensures log + PagesAfter(a, b) + PagesAfter(b, c) == log + PagesAfter(a, c)
  {
    assert PagesAfter(a, b) + PagesAfter(b, c) == PagesAfter(a, c);
  }

  // ----- The query

  datatype Kind = General | Specific

  /** The first page of a new statement. */
  lemma FirstPage(s: Script, st: Statements, maxRows: int)
    requires IsScript(s) && AreNumbered(st) && maxRows > 0
    ensures var a, i := Serve(s, st, 0, maxRows), st.last + 1;
            && AreNumbered(a.statements) && a.statements.misused == st.misused && a.statements.log == st.log + [0]
            && i !in st.open
            && if s.pages == [] then
                 a.out.None? && a.statements.open == st.open && a.status < 0 &&
                 a.status == if s.ending.Fails? then s.ending.err else CAT_NO_ROWS_FOUND
               else
                 && a.status >= 0
                 && a.statements.open == (if More(s, 0) then st.open[i := 1] else st.open)
                 && a.out == Some(Output(s.pages[0], if More(s, 0) then i else 0))
  {
    assert st.open - {st.last + 1} == st.open;
  }

  /** The page after `k`, of the statement `i` that gave `k`. */
  lemma NextPage(s: Script, st: Statements, others: map<int, nat>, i: int, maxRows: int, k: nat)
    requires IsScript(s) && AreNumbered(st) && maxRows > 0 && k < |s.pages| && More(s, k)
    requires i > 0 && i !in others && st.open == others[i := k + 1]
    ensures var a := Serve(s, st, i, maxRows);
            && AreNumbered(a.statements) && a.statements.misused == st.misused && a.statements.log == st.log + [k + 1]
            && if k + 1 == |s.pages| then
                 && a.out.None? && a.statements.open == others && a.status < 0
                 && a.status == if s.ending.Fails? then s.ending.err else CAT_NO_ROWS_FOUND
               else
                 && a.status >= 0
                 && a.statements.open == (if More(s, k + 1) then others[i := k + 2] else others)
                 && a.out == Some(Output(s.pages[k + 1], if More(s, k + 1) then i else 0))
  {
    assert st.open - {i} == others;
    assert st.open[i := k + 2] == others[i := k + 2];
  }

  /** `query_impl_base` with the two classes derived from it, which differ in their constructors. */
  class QueryImpl {
    const server: Server
    const queryLimit: nat
    const queryString: string
    var output: Option<Output>
    var continueInx: int
    var maxRows: int
    /** The statements opened before the one the rows come from. */
    ghost var others: map<int, nat>
    /** The page asked for last. */
    ghost var page: nat

    ghost predicate Sound()
      reads this, server
    {
      && IsScript(server.script) && queryLimit < UINT32 && page <= |server.script.pages|
      && !server.statements.misused && AreNumbered(server.statements)
    }

    /** The output is a page, and the only statement this query has open, if any, is the one that
        gives the next page. */
    ghost predicate Holds()
      reads this, server
    {
      && Sound() && maxRows > 0 && output.Some? && page < |server.script.pages|
      && output.value.rows == server.script.pages[page]
      && var c := output.value.continueInx;
         if More(server.script, page) then c > 0 && c !in others && server.statements.open == others[c := page + 1]
         else c == 0 && server.statements.open == others
    }

    /** There is no output, and no statement of this query is open. */
    ghost predicate Cleared()
      reads this, server
    {
      Sound() && output.None? && server.statements.open == others
    }

    /** The output is given up, and the statement that gives the page after `page` is named by the
        input. */
    ghost predicate Between()
      reads this, server
    {
      && Sound() && output.None? && maxRows > 0 && page < |server.script.pages| && More(server.script, page)
      && continueInx > 0 && continueInx !in others && server.statements.open == others[continueInx := page + 1]
    }

    ghost predicate Tidy()
      reads this, server
    {
      Holds() || Cleared()
    }

    constructor (s: Server, limit: nat, q: string)
      ensures server == s && queryLimit == limit && queryString == q
      ensures output.None? && continueInx == 0 && maxRows == MAX_SQL_ROWS && page == 0
      ensures others == s.statements.open
    {
      server, queryLimit, queryString := s, limit, q;
      output, continueInx, maxRows := None, 0, MAX_SQL_ROWS;
      others, page := s.statements.open, 0;
    }

    predicate QueryLimitExceeded(count: nat)
      reads this
    {
      queryLimit != 0 && count >= queryLimit
    }

    predicate PageInFlight(rowIdx: nat)
      requires output.Some?
      reads this
    {
      rowIdx < |output.value.rows|
    }

    predicate QueryComplete()
      requires output.Some?
      reads this
    {
      output.value.continueInx <= 0
    }

    predicate ResultsValid()
      reads this
    {
      output.Some? && |output.value.rows| > 0
    }

    method FetchPage() returns (status: int)
      modifies this`output, this`page, server
      ensures Answer(server.statements, status, output) ==
                Serve(server.script, old(server.statements), continueInx, maxRows)
      ensures page == if old(Between()) then old(page) + 1 else old(page)
      ensures old(Between()) ==>
                && server.statements.log == old(server.statements.log) + [page]
                && if page < |server.script.pages| then status >= 0 && Holds() else
                   && Cleared()
                   && status == if server.script.ending.Fails? then server.script.ending.err else CAT_NO_ROWS_FOUND
    {
      hide Serve, More;
      if Between() {
        NextPage(server.script, server.statements, others, continueInx, maxRows, page);
        page := page + 1;
      }
      status, output := server.Ask(continueInx, maxRows);
    }

    method ResetForPageBoundary()
      modifies this`output, this`continueInx
      ensures output.None?
      ensures continueInx == if old(output).Some? then old(output).value.continueInx else old(continueInx)
      ensures old(Holds()) && More(server.script, page) ==> Between()
    {
      if output.Some? {
        continueInx := output.value.continueInx;
        output := None;
      }
    }

    /** The destructor. */
    method Destroy()
      requires Tidy()
      modifies this, server
      ensures server.statements.open == old(others) && server.statements.log == old(server.statements.log)
      ensures !server.statements.misused && AreNumbered(server.statements)
    {
      if output.Some? && output.value.continueInx != 0 {
        continueInx := output.value.continueInx;
        output := None;
        maxRows := 0;
        var status, out := server.Ask(continueInx, maxRows);
        assert server.statements.open == old(others);
      }
      output := None;
    }
  }

  /** How a loop over a query ends; an increment never throws. After a fault nothing is known: a null
      pointer was followed. */
  datatype Outcome = Finished | Threw(err: int) | Faulted

  /** The input of a general query, as far as an iterator would read it. */
  class QueryInput {
    var continueInx: int
  }

  /** `query::iterator`. Only one that has no query can have a `genInput`, so it is null wherever an
      increment could read it. */
  class Iterator {
    const impl: QueryImpl?
    const genInput: QueryInput?
    const queryString: string
    var rowIdx: nat
    var totalRowsProcessed: nat
    var endIterationState: bool
    /** The number of the row the iterator started from. */
    ghost const base: nat

    ghost predicate Valid()
      reads this, impl, if impl == null then {} else {impl.server}
    {
      !endIterationState ==>
        && impl != null && genInput == null && impl.Holds() && rowIdx < |impl.output.value.rows| && base <= Position()
        && totalRowsProcessed == Wrapped(Position() - base)
        && (impl.queryLimit != 0 ==> Position() - base < impl.queryLimit)
    }

    /** The number of the current row among all rows. */
    ghost function Position(): nat
      requires impl != null && impl.page < |impl.server.script.pages|
      reads this, impl
    {
      RowsBefore(impl.server.script, impl.page) + rowIdx
    }

    constructor End()
      ensures impl == null && genInput == null && queryString == "" && endIterationState
    {
      impl, genInput, queryString := null, null, "";
      rowIdx, totalRowsProcessed, endIterationState := 0, 0, true;
      base := 0;
    }

    constructor (q: QueryImpl)
      requires q.Holds()
      ensures impl == q && genInput == null && queryString == ""
      ensures !endIterationState && rowIdx == 0 && totalRowsProcessed == 0
      ensures Valid() && base == RowsBefore(q.server.script, q.page) == Position()
    {
      impl, genInput, queryString := q, null, "";
      rowIdx, totalRowsProcessed, endIterationState := 0, 0, false;
      base := RowsBefore(q.server.script, q.page);
    }

    /** The constructor that sets an input leaves the query null. */
    constructor WithInput(text: string, input: QueryInput)
      ensures impl == null && genInput == input && queryString == text && !endIterationState && !Valid()
    {
      impl, genInput, queryString := null, input, text;
      rowIdx, totalRowsProcessed, endIterationState := 0, 0, false;
      base := 0;
    }

    /** A copy shares the query and its pages. */
    constructor Copy(it: Iterator)
      ensures impl == it.impl && genInput == it.genInput && queryString == it.queryString
      ensures endIterationState == it.endIterationState
      ensures rowIdx == it.rowIdx && totalRowsProcessed == it.totalRowsProcessed
      ensures base == if it.impl == null || it.impl.page > |it.impl.server.script.pages| then 0
                      else RowsBefore(it.impl.server.script, it.impl.page)
    {
      impl, genInput, queryString := it.impl, it.genInput, it.queryString;
      rowIdx, totalRowsProcessed, endIterationState := it.rowIdx, it.totalRowsProcessed, it.endIterationState;
      base := if it.impl == null || it.impl.page > |it.impl.server.script.pages| then 0
              else RowsBefore(it.impl.server.script, it.impl.page);
    }

    /** `operator==`: beyond the end it compares the query's text with the text of the other
        iterator, which is always empty. */
    predicate Equals(other: Iterator)
      requires (endIterationState && other.endIterationState) || impl != null
      reads this, other
    {
      (endIterationState && other.endIterationState) || impl.queryString == other.queryString
    }

    /** `operator*`. */
    function Capture(): (row: Row)
      requires Valid() && !endIterationState
      ensures Position() < |AllRows(impl.server.script)| && row == AllRows(impl.server.script)[Position()]
      reads this, impl, if impl == null then {} else {impl.server}
    {
      RowOfPage(impl.server.script, impl.page, rowIdx);
      impl.output.value.rows[rowIdx]
    }

    /** Whether an increment asks for a page and the server fails. */
    ghost predicate MeetsFailure()
      requires impl != null && impl.page < |impl.server.script.pages|
      reads this, impl
    {
      && impl.server.script.ending.Fails?
      && Position() + 1 == |AllRows(impl.server.script)|
      && (impl.queryLimit == 0 || Position() + 1 - base < impl.queryLimit)
    }

    /** Whether a dereference is within the page at hand. */
    predicate IsInPage()
      reads this, impl
    {
      impl != null && impl.output.Some? && rowIdx < |impl.output.value.rows|
    }

    function Shown(): Row
      requires IsInPage()
      reads this, impl
    {
      impl.output.value.rows[rowIdx]
    }

    /** Whether an increment asks for the next page. */
    ghost predicate TurnsPage()
      requires impl != null && impl.page < |impl.server.script.pages|
      reads this, impl
    {
      && rowIdx + 1 == |impl.server.script.pages[impl.page]| && More(impl.server.script, impl.page)
      && (impl.queryLimit == 0 || Position() + 1 - base < impl.queryLimit)
    }

    /** `advance_query`: one row on, unless the limit or the rows are used up. The next page is
        asked for only when one more row is wanted and the page at hand has none. When the server
        fails, the message of the exception is made from `genInput` first, so the increment follows a
        null pointer instead of throwing. */
    method Advance() returns (outcome: Outcome)
      requires Valid() && !endIterationState
      modifies this, impl, impl.server
      ensures outcome == if old(MeetsFailure()) then Faulted else Finished
      ensures outcome.Finished? ==>
                var p, limit := old(Position()) + 1, impl.queryLimit;
                && Valid()
                && (endIterationState <==> (limit != 0 && p - base == limit) || p == |AllRows(impl.server.script)|)
                && (!endIterationState ==> impl.page < |impl.server.script.pages| && Position() == p)
      ensures !outcome.Faulted? ==>
                && impl.Tidy() && impl.others == old(impl.others)
                && old(impl.page) <= impl.page <= |impl.server.script.pages|
                && impl.server.statements.log ==
                     old(impl.server.statements.log) + PagesAfter(old(impl.page), impl.page)
                && impl.page == (if old(TurnsPage()) then old(impl.page) + 1 else old(impl.page))
                && (!old(TurnsPage()) ==> impl.output == old(impl.output))
                && (impl.page > old(impl.page) ==>
                      && RowsBefore(impl.server.script, impl.page) == old(Position()) + 1
                      && (impl.queryLimit != 0 ==> old(Position()) + 1 - base < impl.queryLimit))
    {
      hide RowsBefore, RowsOf, Serve, IsScript, AllRows, AreNumbered, Wrapped;
      ghost var script, k := impl.server.script, impl.page;
      RowOfPage(script, k, rowIdx);
      RowsOfAll(script);
      WrapsOn(Position() - base);
      totalRowsProcessed := Wrapped(totalRowsProcessed + 1);
      if impl.QueryLimitExceeded(totalRowsProcessed) {
        endIterationState := true;
        return Finished;
      }
      if rowIdx + 1 < |script.pages[k]| {
        RowOfPage(script, k, rowIdx + 1);
      }
      rowIdx := rowIdx + 1;
      if impl.PageInFlight(rowIdx) {
        return Finished;
      }
      if impl.QueryComplete() {
        endIterationState := true;
        return Finished;
      }
      PageHasRows(script, k + 1);
      rowIdx := 0;
      impl.ResetForPageBoundary();
      var status := impl.FetchPage();
      if status < 0 {
        if status != CAT_NO_ROWS_FOUND {
          return if genInput == null then Faulted else Threw(status);
        }
        endIterationState := true;
      }
      return Finished;
    }

    /** `operator++(int)`: the copy it returns shares the pages, so it shows the row it stood on
        exactly while the increment stays on the page. When the page is turned it is on the same
        line of the next one, which is there exactly when that page is not the shorter one. */
    method PostIncrement() returns (ret: Iterator, outcome: Outcome)
      requires Valid() && !endIterationState
      modifies this, impl, impl.server
      ensures fresh(ret) && ret.impl == impl && ret.rowIdx == old(rowIdx)
      ensures outcome == if old(MeetsFailure()) then Faulted else Finished
      ensures outcome.Finished? ==>
                && Valid()
                && (!old(TurnsPage()) ==> ret.IsInPage() && ret.Shown() == old(Capture()))
                && (old(TurnsPage()) ==>
                      var pages, k := impl.server.script.pages, old(impl.page);
                      && (ret.IsInPage() <==> k + 1 < |pages| && |pages[k]| <= |pages[k + 1]|)
                      && (ret.IsInPage() ==> ret.Shown() == pages[k + 1][old(rowIdx)]))
    {
      hide RowsBefore, Serve, IsScript, AllRows, AreNumbered, Wrapped;
      PageHasRows(impl.server.script, impl.page + 1);
      RowOfPage(impl.server.script, impl.page, rowIdx);
      ret := new Iterator.Copy(this);
      outcome := Advance();
    }
  }

  /** `query`: a query with its first page. */
  class Query {
    const impl: QueryImpl
    const iter: Iterator

    constructor (q: QueryImpl, it: Iterator)
      ensures impl == q && iter == it
    {
      impl, iter := q, it;
    }

    method Begin() returns (it: Iterator)
      requires Ready()
      ensures fresh(it) && it.impl == iter.impl && it.genInput == iter.genInput
      ensures it.queryString == iter.queryString && it.endIterationState == iter.endIterationState
      ensures !it.endIterationState ==>
                && it.Valid() && impl.page < |impl.server.script.pages|
                && it.Position() == it.base == RowsBefore(impl.server.script, impl.page)
    {
      hide RowsBefore;
      it := new Iterator.Copy(iter);
      PageHasRows(impl.server.script, impl.page);
    }

    method End() returns (it: Iterator)
      ensures fresh(it) && it.impl == null && it.queryString == "" && it.endIterationState
    {
      it := new Iterator.End();
    }

    /** A loop over the query may begin: there is a page to begin from, or the end is reached. */
    ghost predicate Ready()
      reads this, iter, impl, impl.server
    {
      && impl.Tidy() && iter.queryString == "" && iter.genInput == null
      && if iter.endIterationState then iter.impl == null else
         iter.impl == impl && impl.Holds() && iter.rowIdx == 0 && iter.totalRowsProcessed == 0
    }
  }

  /** The rows a loop can still visit. */
  function RowsAhead(s: Script, page: nat): seq<Row>
    requires page <= |s.pages|
  {
    RowsBeforeArePrefix(s, page);
    AllRows(s)[RowsBefore(s, page)..]
  }

  /** Whether a loop that takes `most` rows of a query with a limit, if these are not zero, takes
      `n` rows and asks for more. */
  predicate Wants(n: int, limit: nat, most: nat) {
    (limit == 0 || n < limit) && (most == 0 || n < most)
  }

  /** A range-based loop over the query, left after `most` rows unless that is zero. It faults when
      it wants more rows than the pages have and the server fails. */
  method Loop(q: Query, most: nat) returns (visited: seq<Row>, outcome: Outcome)
    requires q.Ready() && !q.iter.endIterationState
    modifies q.impl, q.impl.server
    ensures var s, rows := q.impl.server.script, RowsAhead(q.impl.server.script, old(q.impl.page));
            && visited == (if q.impl.queryString == "" then [] else Truncated(Truncated(rows, q.impl.queryLimit), most))
            && !outcome.Threw?
            && (outcome.Faulted? <==>
                  q.impl.queryString != "" && s.ending.Fails? && Wants(|rows|, q.impl.queryLimit, most))
    ensures !outcome.Faulted? ==>
              var s, first := q.impl.server.script, old(q.impl.page);
              && q.impl.Tidy() && q.impl.others == old(q.impl.others)
              && first <= q.impl.page <= |s.pages|
              && q.impl.server.statements.log == old(q.impl.server.statements.log) + PagesAfter(first, q.impl.page)
              && (forall k: nat :: first < k <= q.impl.page ==>
                    Wants(RowsBefore(s, k) - RowsBefore(s, first), q.impl.queryLimit, most))
  {
    hide RowsBefore, RowsOf, AllRows, IsScript, Truncated, PagesAfter, More, Wrapped;
    hide RowsAhead, Iterator.Valid, Iterator.TurnsPage, QueryImpl.Tidy, QueryImpl.Holds, Query.Ready;
    BeginsOnPage(q);
    ghost var script, limit, first := q.impl.server.script, q.impl.queryLimit, q.impl.page;
    ghost var log := q.impl.server.statements.log;
    ghost var rows, start := RowsAhead(script, first), RowsBefore(script, first);
    visited, outcome := [], Finished;
    var it := q.Begin();
    var end := q.End();
    FirstIsThere(script, first);
    NoPagesYet(log, first);
    while !it.Equals(end)
      invariant it != end && end.endIterationState && end.queryString == "" && it.impl == q.impl
      invariant it.genInput == null && it.base == start && it.Valid() && outcome.Finished?
      invariant q.impl.others == old(q.impl.others) && q.impl.Tidy()
      invariant |visited| <= |rows| && visited == rows[..|visited|]
      invariant most == 0 || |visited| < most
      invariant if it.endIterationState then
                  q.impl.queryString != "" && (|visited| == |rows| || (|visited| == limit && limit != 0))
                  && (limit == 0 || |visited| <= limit)
                  && (script.ending.Fails? ==> !Wants(|rows|, limit, most))
                else
                  && (limit == 0 || |visited| < limit) && (q.impl.queryString == "" ==> visited == [])
                  && q.impl.page < |script.pages| && it.Position() == start + |visited|
      invariant first <= q.impl.page <= |script.pages|
      invariant q.impl.server.statements.log == log + PagesAfter(first, q.impl.page)
      invariant forall k: nat :: first < k <= q.impl.page ==> Wants(RowsBefore(script, k) - start, limit, most)
      decreases |rows| - |visited|, !it.endIterationState
    {
      var row := it.Capture();
      visited := visited + [row];
      if |visited| == most {
        StopsThere(rows, limit, most, |visited|);
        return;
      }
      ghost var before := q.impl.page;
      outcome := it.Advance();
      if outcome.Faulted? {
        StopsThere(rows, limit, most, |visited|);
        return;
      }
      PagesFollow(log, first, before, q.impl.page);
    }
    if q.impl.queryString != "" {
      StopsThere(rows, limit, most, |visited|);
    }
  }

  lemma BeginsOnPage(q: Query)
    requires q.Ready() && !q.iter.endIterationState
    ensures q.impl.page < |q.impl.server.script.pages| && q.impl.Tidy() && q.iter.impl == q.impl
    ensures q.iter.genInput == null && q.iter.queryString == ""
  {
  }

  lemma FirstIsThere(s: Script, page: nat)
    requires page < |s.pages|
    ensures RowsBefore(s, page) + |RowsAhead(s, page)| == |AllRows(s)|
    ensures forall i: nat :: i < |RowsAhead(s, page)| ==> RowsAhead(s, page)[i] == AllRows(s)[RowsBefore(s, page) + i]
  {
    RowsBeforeArePrefix(s, page);
  }

  lemma NoPagesYet(log: seq<nat>, page: nat)
    ensures log + PagesAfter(page, page) == log
  {
  }

  // ----- Whole runs

  /** A specific query runs twice: once when it is made, and again for the first page. The first
      statement is never closed, so it stays open exactly when there is more than one page. */
  predicate LeavesStatement(s: Script, kind: Kind) {
    kind == Specific && s.pages != [] && More(s, 0)
  }

  /** The statements other than the one the rows come from. */
  function Others(s: Script, st: Statements, kind: Kind): map<int, nat> {
    if LeavesStatement(s, kind) then st.open[st.last + 1 := 1] else st.open
  }

  /** The pages asked for before the first row. */
  function FirstAsked(s: Script, kind: Kind): seq<nat> {
    if kind == Specific && s.pages != [] then [0, 0] else [0]
  }

  /** How a query without rows fails, if it does. */
  function EmptyFailure(s: Script, kind: Kind): Option<int> {
    if s.ending.Fails? then Some(s.ending.err) else
    if kind == Specific then Some(CAT_NO_ROWS_FOUND) else None
  }

  /** `gen_query_impl` and `spec_query_impl`: the second runs the query. */
  method MakeImpl(server: Server, queryString: string, limit: nat, kind: Kind, fillErr: int)
    returns (r: Result<QueryImpl, int>)
    requires IsScript(server.script) && AreNumbered(server.statements) && !server.statements.misused
    modifies server
    ensures !server.statements.misused && AreNumbered(server.statements)
    ensures kind == General ==> server.statements == old(server.statements)
    ensures kind == General ==> (r.Err? <==> fillErr < 0) && (r.Err? ==> r.error == fillErr)
    ensures kind == Specific ==>
              && (r.Err? <==> server.script.pages == [])
              && server.statements.log == old(server.statements.log) + [0]
              && (r.Err? ==> Some(r.error) == EmptyFailure(server.script, kind))
    ensures server.statements.open == Others(server.script, old(server.statements), kind)
    ensures r.Ok? ==> var q := r.value;
              && fresh(q) && q.server == server && q.queryLimit == EffectiveLimit(limit) && q.queryString == queryString
              && q.others == server.statements.open && q.continueInx == 0 && q.maxRows > 0 && q.page == 0
  {
    hide Serve;
    var q := new QueryImpl(server, EffectiveLimit(limit), queryString);
    if kind == General {
      return if fillErr < 0 then Err(fillErr) else Ok(q);
    }
    FirstPage(server.script, server.statements, q.maxRows);
    var status := q.FetchPage();
    if status < 0 {
      return Err(status);
    }
    q.others := server.statements.open;
    return Ok(q);
  }

  /** The constructor of `query`. */
  method Open(server: Server, queryString: string, limit: nat, kind: Kind, fillErr: int) returns (r: Result<Query, int>)
    requires IsScript(server.script) && AreNumbered(server.statements) && !server.statements.misused
    requires kind == General ==> fillErr >= 0
    modifies server
    ensures !server.statements.misused && AreNumbered(server.statements)
    ensures server.statements.log == old(server.statements.log) + FirstAsked(server.script, kind)
    ensures server.script.pages != [] ==>
              && r.Ok? && var q := r.value;
              && q.Ready() && !q.iter.endIterationState && q.impl.page == 0
              && q.impl.others == Others(server.script, old(server.statements), kind)
    ensures server.script.pages == [] ==>
              && server.statements.open == old(server.statements.open)
              && match EmptyFailure(server.script, kind)
                 case Some(err) => r == Err(err)
                 case None =>
                   && r.Ok? && r.value.iter.endIterationState && r.value.impl.Cleared()
                   && r.value.impl.others == old(server.statements.open)
    ensures server.script.pages == [] && server.script.ending.NoRows? ==>
              && (kind == Specific ==> r == Err(CAT_NO_ROWS_FOUND))
              && (kind == General ==> r.Ok? && r.value.iter.endIterationState)
    ensures server.script.pages == [] && server.script.ending.Fails? ==> r == Err(server.script.ending.err)
    ensures r.Ok? ==> var q := r.value;
              && fresh(q.impl) && q.impl.server == server
              && q.impl.queryLimit == EffectiveLimit(limit) && q.impl.queryString == queryString
  {
    hide Serve;
    var made := MakeImpl(server, queryString, limit, kind, fillErr);
    if made.Err? {
      return Err(made.error);
    }
    var q := made.value;
    FirstPage(server.script, server.statements, q.maxRows);
    var status := q.FetchPage();
    PageHasRows(server.script, 0);
    if status < 0 && status != CAT_NO_ROWS_FOUND {
      q.Destroy();
      return Err(status);
    }
    var it;
    if q.ResultsValid() {
      it := new Iterator(q);
    } else {
      it := new Iterator.End();
    }
    var query := new Query(q, it);
    return Ok(query);
  }

  /** Whether a loop over a query with pages runs into a failing server. */
  predicate MeetsFailure(s: Script, queryString: string, limit: nat, most: nat) {
    s.pages != [] && queryString != "" && s.ending.Fails? && Wants(|AllRows(s)|, limit, most)
  }

  /** A query is made, looped over for `most` rows or all of them, and destroyed. The loop sees the
      rows of all pages in order, up to the limit. It faults exactly when the server fails after the
      first page while more rows are wanted; nothing more is said then. Otherwise every page is
      asked for once, and none that starts at or past the limit, and nothing but the first run of a
      specific query stays open. */
  method Run(server: Server, queryString: string, limit: nat, kind: Kind, fillErr: int, most: nat)
    returns (visited: seq<Row>, outcome: Outcome, ghost asked: nat)
    requires IsScript(server.script) && AreNumbered(server.statements) && !server.statements.misused
    modifies server
    ensures kind == General && fillErr < 0 ==>
              visited == [] && outcome == Threw(fillErr) && server.statements == old(server.statements)
    ensures kind == Specific || fillErr >= 0 ==>
              var s, e := server.script, EffectiveLimit(limit);
              && visited == (if queryString == "" then [] else Truncated(Truncated(AllRows(s), e), most))
              && (outcome == Faulted <==> MeetsFailure(s, queryString, e, most))
              && (outcome.Threw? <==> s.pages == [] && EmptyFailure(s, kind).Some?)
              && (outcome.Threw? ==> EmptyFailure(s, kind) == Some(outcome.err))
              && (s.pages != [] ==> outcome == Finished || outcome == Faulted)
              && (s.pages == [] && s.ending.NoRows? ==>
                    visited == [] && outcome == if kind == General then Finished else Threw(CAT_NO_ROWS_FOUND))
              && (s.pages == [] && s.ending.Fails? ==> visited == [] && outcome == Threw(s.ending.err))
    ensures (kind == Specific || fillErr >= 0) && outcome != Faulted ==>
              var s, e := server.script, EffectiveLimit(limit);
              && server.statements.log == old(server.statements.log) + FirstAsked(s, kind) + PagesAfter(0, asked)
              && asked <= |s.pages| && (forall k: nat :: 0 < k <= asked ==> Wants(RowsBefore(s, k), e, most))
              && server.statements.open == Others(s, old(server.statements), kind)
    ensures outcome != Faulted ==>
              && !server.statements.misused && AreNumbered(server.statements)
              && (server.statements.open == old(server.statements.open) <==>
                    || kind == General || server.script.pages == []
                    || (|server.script.pages| == 1 && server.script.ending.LastPage?))
  {
    hide RowsBefore, RowsOf, AllRows, PagesAfter, Wrapped, QueryImpl.Holds, Wants, IsScript;
    visited, asked := [], 0;
    OpenedStaysOpen(server.script, server.statements, kind);
    if kind == General && fillErr < 0 {
      return [], Threw(fillErr), 0;
    }
    var made := Open(server, queryString, limit, kind, fillErr);
    NoPagesYet(server.statements.log, 0);
    NoRowsAtAll(server.script);
    if made.Err? {
      return [], Threw(made.error), 0;
    }
    var q := made.value;
    outcome := Finished;
    if !q.iter.endIterationState {
      visited, outcome := Loop(q, most);
      if outcome.Faulted? {
        return;
      }
      asked := q.impl.page;
    }
    q.impl.Destroy();
  }

  lemma NoRowsAtAll(s: Script)
    ensures s.pages == [] ==> AllRows(s) == []
    ensures RowsBefore(s, 0) == 0 && RowsAhead(s, 0) == AllRows(s)
  {
  }

  lemma OpenedStaysOpen(s: Script, st: Statements, kind: Kind)
    requires AreNumbered(st)
    ensures Others(s, st, kind) == st.open <==>
              kind == General || s.pages == [] || (|s.pages| == 1 && s.ending.LastPage?)
  {
    assert st.last + 1 !in st.open;
  }

  // ----- Inputs on which the code does less

  /** One page and then an error: a loop over all rows faults, and one over a single row does not. */
  lemma FaultsAfterOnePage(row: Row, err: int)
    requires err < 0 && err != CAT_NO_ROWS_FOUND
    ensures var s := Script([[row]], Fails(err));
            IsScript(s) && MeetsFailure(s, "select", 0, 0) && !MeetsFailure(s, "select", 1, 0) &&
            !MeetsFailure(s, "select", 0, 1)
  {
    var s := Script([[row]], Fails(err));
    RowsOfNext(s, 0);
    assert s.pages[..1] == s.pages;
  }

  /** Two rows, then one: what `it++` returns at the second row is past the next page. */
  method CopyLeavesPage(server: Server, row: Row) returns (kept: Iterator?)
    requires server.script == Script([[row, row], [row]], LastPage)
    requires AreNumbered(server.statements) && !server.statements.misused
    modifies server
    ensures kept != null && !kept.IsInPage()
  {
    hide RowsBefore, RowsOf, Serve, Truncated, PagesAfter, Wrapped, QueryImpl.Holds, Others, FirstAsked, EmptyFailure;
    var made := Open(server, "select", 0, General, 0);
    NoRowsAtAll(server.script);
    RowOfPage(server.script, 0, 0);
    RowOfPage(server.script, 1, 0);
    RowsOfAll(server.script);
    var it := made.value.Begin();
    var outcome := it.Advance();
    kept, outcome := it.PostIncrement();
  }

  /** A specific query with two pages leaves its first statement open. */
  lemma TwoPagesLeaveStatement(row: Row, st: Statements)
    requires AreNumbered(st)
    ensures var s := Script([[row], [row]], LastPage);
            IsScript(s) && Others(s, st, Specific) == st.open[st.last + 1 := 1] != st.open
  {
    OpenedStaysOpen(Script([[row], [row]], LastPage), st, Specific);
  }

  /** A limit of one more than 32 bits hold, on two rows: one row is left. */
  lemma LargeLimitIsLost(row: Row)
    ensures var rows := [row, row];
            Truncated(rows, UINT32 + 1) == rows && Truncated(rows, EffectiveLimit(UINT32 + 1)) == [row]
  {
    assert [row, row][..1] == [row];
  }
}
