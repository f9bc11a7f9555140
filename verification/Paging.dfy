/** Reading a list page by page, each page naming where the next begins. */
module Paging {
  import opened Outcomes

  datatype Page<+T> = Page(rows: seq<T>, next: string)

  /** What the listing answers call n when it carries the token. */
  type Listing<T, E> = (string, nat) -> Result<Page<T>, E>

  /** The token of call n, when every earlier page carried one on. */
  function Token<T, E>(list: Listing<T, E>, n: nat): string {
    if n == 0 then ""
    else
      match list(Token(list, n - 1), n - 1)
      case Ok(page) => page.next
      case Err(_) => ""
  }

  /** The first n calls were answered, and each but the last with a token to go on with. */
  ghost predicate Answered<T(!new), E(!new)>(list: Listing<T, E>, n: nat) {
    forall k: nat :: k < n ==> list(Token(list, k), k).Ok? && (k > 0 ==> Token(list, k) != "")
  }

  /** All the rows of the first n pages. */
  function Read<T, E>(list: Listing<T, E>, n: nat): seq<T> {
    if n == 0 then []
    else
      Read(list, n - 1) +
      match list(Token(list, n - 1), n - 1)
      case Ok(page) => page.rows
      case Err(_) => []
  }

  lemma NextPage<T(!new), E(!new)>(list: Listing<T, E>, n: nat)
    requires list(Token(list, n), n).Ok?
    ensures var page := list(Token(list, n), n).value;
            && Token(list, n + 1) == page.next && Read(list, n + 1) == Read(list, n) + page.rows
            && (Answered(list, n) && (n > 0 ==> Token(list, n) != "") ==> Answered(list, n + 1))
  {
  }

  lemma NoPage<T(!new), E(!new)>(list: Listing<T, E>)
    ensures Token(list, 0) == "" && Read(list, 0) == [] && Answered(list, 0)
  {
  }

  /** The listing pages these rows in order: pages of any size, empty ones included, each
      continuing where its token says, and a page without a token ends them. */
  ghost predicate PagesOf<T(!new), E(!new)>(list: Listing<T, E>, rows: seq<T>, place: string -> nat) {
    && place("") == 0
    && forall token: string, n: nat :: (list(token, n).Ok? ==>
         var page := list(token, n).value;
         var from := place(token);
         var to := from + |page.rows|;
         && to <= |rows| && page.rows == rows[from..to]
         && if page.next == "" then to == |rows| else place(page.next) == to)
  }

  /** Following the tokens reads the rows from their start, and to their end once a page
      carries none. */
  lemma {:induction false} ReadIsThePagesRows<T(!new), E(!new)>(list: Listing<T, E>, rows: seq<T>,
                                                                place: string -> nat, n: nat)
    requires PagesOf(list, rows, place) && Answered(list, n)
    ensures |Read(list, n)| <= |rows| && Read(list, n) == rows[..|Read(list, n)|]
    ensures n > 0 && Token(list, n) == "" ==> Read(list, n) == rows
    ensures n == 0 || Token(list, n) != "" ==> place(Token(list, n)) == |Read(list, n)|
  {
    hide Read, Token, PagesOf;
    if n == 0 {
      NoPage(list);
      StartOf(list, rows, place);
    } else {
      ReadIsThePagesRows(list, rows, place, n - 1);
      NextPage(list, n - 1);
      PageThere(list, rows, place, Token(list, n - 1), n - 1);
    }
  }

  lemma StartOf<T(!new), E(!new)>(list: Listing<T, E>, rows: seq<T>, place: string -> nat)
    requires PagesOf(list, rows, place)
    ensures place("") == 0
  {
  }

  lemma PageThere<T(!new), E(!new)>(list: Listing<T, E>, rows: seq<T>, place: string -> nat, token: string, n: nat)
    requires PagesOf(list, rows, place) && list(token, n).Ok?
    ensures var page := list(token, n).value;
            var from := place(token);
            var to := from + |page.rows|;
            && to <= |rows| && rows[..from] + page.rows == rows[..to]
            && (page.next == "" ==> to == |rows| && rows[..to] == rows)
            && (page.next != "" ==> place(page.next) == to)
  {
    assert rows[..place(token)] + rows[place(token)..place(token) + |list(token, n).value.rows|]
        == rows[..place(token) + |list(token, n).value.rows|];
  }
}
