/** Page tokens and the collection-id listing that hands them out: a token is an
    offset in hexadecimal, and each page fetches one entry more than it returns. */
module Paging {
  import opened Values

  const U32_LIMIT: int := 0x1_0000_0000
  const I32_LIMIT: int := 0x8000_0000

  // ----- Tokens -----

  function HexDigit(d: int): char
    requires 0 <= d < 16
  {
    if d < 10 then '0' + d as char else 'a' + (d - 10) as char
  }

  function DigitValue(c: char): (r: Option<int>)
    ensures r.Some? ==> 0 <= r.value < 16
  {
    if '0' <= c <= '9' then Some(c as int - '0' as int)
    else if 'a' <= c <= 'f' then Some(c as int - 'a' as int + 10)
    else if 'A' <= c <= 'F' then Some(c as int - 'A' as int + 10)
    else None
  }

  /** The last `width` hexadecimal digits of `n`. */
  function HexDigits(n: nat, width: nat): string {
    if width == 0 then "" else HexDigits(n / 16, width - 1) + [HexDigit(n % 16)]
  }

  function EncodePageToken(offset: nat): string {
    HexDigits(offset, 8)
  }

  /** Digits onto an accumulator, stopping at a bad digit or at 2^32. */
  function ParseDigits(digits: string, acc: nat): Option<nat> {
    if digits == "" then Some(acc)
    else
      match DigitValue(digits[0])
      case None => None
      case Some(d) => if acc * 16 + d >= U32_LIMIT then None else ParseDigits(digits[1..], acc * 16 + d)
  }

  function DecodePageToken(token: string): Option<nat> {
    if token == "" then Some(0)
    else if token == "+" || token == "-" then None
    else if token[0] == '+' then ParseDigits(token[1..], 0)
    else ParseDigits(token, 0)
  }

  function Power16(n: nat): nat {
    if n == 0 then 1 else 16 * Power16(n - 1)
  }

  lemma {:induction false} ParseConcat(a: string, b: string, acc: nat)
    ensures ParseDigits(a + b, acc) ==
      match ParseDigits(a, acc) { case None => None case Some(v) => ParseDigits(b, v) }
    decreases |a|
  {
    if a == "" {
      assert a + b == b;
    } else {
      assert (a + b)[0] == a[0] && (a + b)[1..] == a[1..] + b;
      match DigitValue(a[0]) {
        case None =>
        case Some(d) =>
          if acc * 16 + d < U32_LIMIT {
            ParseConcat(a[1..], b, acc * 16 + d);
          }
      }
    }
  }

  lemma {:induction false} DigitsParse(n: nat, width: nat)
    requires n < Power16(width) && n < U32_LIMIT
    ensures ParseDigits(HexDigits(n, width), 0) == Some(n) && |HexDigits(n, width)| == width
    ensures width > 0 ==> HexDigits(n, width)[0] != '+'
    decreases width
  {
    if width > 0 {
      DigitsParse(n / 16, width - 1);
      var last := [HexDigit(n % 16)];
      ParseConcat(HexDigits(n / 16, width - 1), last, 0);
      assert last[1..] == "" && DigitValue(last[0]) == Some(n % 16);
      assert n / 16 * 16 + n % 16 == n;
      assert ParseDigits(last, n / 16) == Some(n);
    }
  }

  /** Every 32-bit offset survives its token. */
  lemma TokenRoundTrips(offset: nat)
    requires offset < U32_LIMIT
    ensures DecodePageToken(EncodePageToken(offset)) == Some(offset) && |EncodePageToken(offset)| == 8
  {
    assert Power16(8) == U32_LIMIT by {
      assert Power16(2) == 256 && Power16(4) == 256 * Power16(2) && Power16(6) == 256 * Power16(4) &&
        Power16(8) == 256 * Power16(6);
    }
    DigitsParse(offset, 8);
  }

  /** What a digit string denotes, of any length. */
  function Denoted(digits: string): Option<nat> {
    if digits == "" then Some(0)
    else
      match (Denoted(digits[..|digits| - 1]), DigitValue(digits[|digits| - 1]))
      case (Some(high), Some(d)) => Some(high * 16 + d)
      case _ => None
  }

  /** A digit string is accepted exactly when it denotes a 32-bit number, and then as that number. */
  lemma {:induction false} ParseIsDenotation(digits: string)
    ensures ParseDigits(digits, 0) ==
      if Denoted(digits).Some? && Denoted(digits).value < U32_LIMIT then Denoted(digits) else None
  {
    if digits != "" {
      var high, last := digits[..|digits| - 1], digits[|digits| - 1];
      ParseIsDenotation(high);
      ParseConcat(high, [last], 0);
      assert digits == high + [last] && [last][1..] == "";
    }
  }

  // ----- Pages -----

  datatype Page = Page(ids: seq<string>, next: string)

  datatype PageError = InvalidToken | BackendError

  function PageSize(requested: int): (size: int)
    ensures 1 <= requested <= 100 ==> size == requested
    ensures requested <= 0 || requested > 100 ==> size == 100
  {
    if requested <= 0 then 100 else if requested < 100 then requested else 100
  }

  function AsI32(offset: nat): int
    requires offset < U32_LIMIT
  {
    if offset < I32_LIMIT then offset else offset - U32_LIMIT
  }

  /** The store's ordered ids under LIMIT and OFFSET; a negative offset is an error there. */
  function Fetch(all: seq<string>, limit: nat, offset: int): Option<seq<string>> {
    if offset < 0 then None
    else if offset >= |all| then Some([])
    else Some(all[offset..if offset + limit < |all| then offset + limit else |all|])
  }

  /** The page at `offset`: up to `size` ids, and a token when more remain. */
  function PageAt(all: seq<string>, size: nat, offset: nat): Page {
    if offset >= |all| then Page([], "")
    else if offset + size < |all| then Page(all[offset..offset + size], EncodePageToken(offset + size))
    else Page(all[offset..], "")
  }

  method ListCollectionIds(all: seq<string>, requested: int, token: string) returns (r: Result<Page, PageError>)
    ensures r == Answer(all, requested, token)
  {
    var size := if requested <= 0 then 100 else if requested < 100 then requested else 100;
    var offset := DecodePageToken(token);
    if offset.None? {
      return Err(InvalidToken);
    }
    DecodedFits(token);
    var fetched := Fetch(all, size + 1, AsI32(offset.value));
    if fetched.None? {
      return Err(BackendError);
    }
    var ids := fetched.value;
    var hasMore := |ids| > size;
    if hasMore {
      ids := ids[..size];
    }
    FetchOneMore(all, size, offset.value);
    if !hasMore {
      return Ok(Page(ids, ""));
    }
    var next := offset.value + size;
    assert next < U32_LIMIT;
    return Ok(Page(ids, EncodePageToken(next)));
  }

  /** Fetching one entry too many tells whether another page is needed. */
  lemma FetchOneMore(all: seq<string>, size: nat, offset: nat)
    ensures var fetched, page := Fetch(all, size + 1, offset).value, PageAt(all, size, offset);
      && (|fetched| > size <==> offset + size < |all|)
      && page.ids == if |fetched| > size then fetched[..size] else fetched
  {
    if offset + size < |all| {
      assert all[offset..offset + size + 1][..size] == all[offset..offset + size];
    } else if offset < |all| {
      assert all[offset..|all|] == all[offset..];
    }
  }

  lemma DecodedFits(token: string)
    ensures DecodePageToken(token).Some? ==> DecodePageToken(token).value < U32_LIMIT
  {
    ParseIsDenotation(token);
    if token != "" {
      ParseIsDenotation(token[1..]);
    }
  }

  /** The answer to one request, in terms of the list alone. */
  function Answer(all: seq<string>, requested: int, token: string): Result<Page, PageError> {
    match DecodePageToken(token)
    case None => Err(InvalidToken)
    case Some(offset) => if offset >= I32_LIMIT then Err(BackendError) else Ok(PageAt(all, PageSize(requested), offset))
  }

  // ----- Following the tokens -----

  /** All ids a client collects by following tokens from `token`, asking for
      `sizes(k)` in call `k`; None when a call fails. */
  function Follow(all: seq<string>, sizes: nat -> int, k: nat, token: string): Option<seq<string>>
    decreases |all| - match DecodePageToken(token) { case None => 0 case Some(offset) => offset }
  {
    match Answer(all, sizes(k), token)
    case Err(_) => None
    case Ok(page) =>
      if page.next == "" then Some(page.ids)
      else
        var offset := DecodePageToken(token).value;
        TokenRoundTrips(offset + PageSize(sizes(k)));
        match Follow(all, sizes, k + 1, page.next)
        case None => None
        case Some(rest) => Some(page.ids + rest)
  }

  lemma LastPage(all: seq<string>, sizes: nat -> int, k: nat, token: string, offset: nat)
    requires DecodePageToken(token) == Some(offset) && offset <= |all| && offset < I32_LIMIT &&
      offset + PageSize(sizes(k)) >= |all|
    ensures Follow(all, sizes, k, token) == Some(all[offset..])
  {
    assert offset == |all| ==> all[offset..] == [];
  }

  lemma NotLastPage(
      all: seq<string>, sizes: nat -> int, k: nat, token: string, offset: nat, next: nat, rest: seq<string>)
    requires DecodePageToken(token) == Some(offset) && offset < I32_LIMIT && next == offset + PageSize(sizes(k)) < |all|
    requires Follow(all, sizes, k + 1, EncodePageToken(next)) == Some(rest)
    ensures Follow(all, sizes, k, token) == Some(all[offset..next] + rest)
  {
    TokenRoundTrips(next);
  }

  lemma {:induction false} FollowCollects(all: seq<string>, sizes: nat -> int, k: nat, token: string, offset: nat)
    requires |all| <= I32_LIMIT && DecodePageToken(token) == Some(offset) && offset <= |all| && offset < I32_LIMIT
    ensures Follow(all, sizes, k, token) == Some(all[offset..])
    decreases |all| - offset
  {
    var next := offset + PageSize(sizes(k));
    if next < |all| {
      TokenRoundTrips(next);
      FollowCollects(all, sizes, k + 1, EncodePageToken(next), next);
      NotLastPage(all, sizes, k, token, offset, next, all[next..]);
      assert all[offset..next] + all[next..] == all[offset..];
    } else {
      LastPage(all, sizes, k, token, offset);
    }
  }

  lemma {:induction false} SmallPagesRunOut(all: seq<string>, k: nat, token: string, offset: nat)
    requires |all| > I32_LIMIT && DecodePageToken(token) == Some(offset) && offset <= I32_LIMIT
    ensures Follow(all, call => 1, k, token).None?
    decreases I32_LIMIT - offset
  {
    if offset < I32_LIMIT {
      TokenRoundTrips(offset + 1);
      SmallPagesRunOut(all, k + 1, EncodePageToken(offset + 1), offset + 1);
    }
  }

  /** Following tokens from the empty one returns every id once and in order,
      whatever page sizes are asked for, exactly when there are at most 2^31 ids. */
  lemma FollowCollectsIff(all: seq<string>)
    ensures |all| <= I32_LIMIT <==> forall sizes: nat -> int :: Follow(all, sizes, 0, "") == Some(all)
  {
    if |all| <= I32_LIMIT {
      forall sizes: nat -> int ensures Follow(all, sizes, 0, "") == Some(all) {
        FollowCollects(all, sizes, 0, "", 0);
        assert all[0..] == all;
      }
    } else {
      SmallPagesRunOut(all, 0, "", 0);
    }
  }

  // ----- What a token may look like -----

  /** Digits `0` to `9`, then `a` to `f` in either case. */
  lemma DigitsInEitherCase(d: nat)
    requires d < 16
    ensures DigitValue("0123456789abcdef"[d]) == Some(d) && DigitValue("0123456789ABCDEF"[d]) == Some(d)
    ensures forall c :: DigitValue(c) == Some(d) ==> c == "0123456789abcdef"[d] || c == "0123456789ABCDEF"[d]
  {
  }

  /** A token is nothing, which means 0, or hexadecimal digits after at most one
      plus sign, which mean the 32-bit number they denote. */
  lemma TokenMeans(token: string, offset: nat)
    ensures DecodePageToken(token) == Some(offset) <==>
      || (token == "" && offset == 0)
      || (offset < U32_LIMIT && exists digits ::
            digits != "" && (token == digits || token == "+" + digits) && Denoted(digits) == Some(offset))
  {
    ParseIsDenotation(token);
    if token != "" {
      ParseIsDenotation(token[1..]);
      if token[0] == '+' {
        SignIsNoDigit(token);
        assert token == "+" + token[1..];
        assert forall digits :: token == "+" + digits ==> digits == token[1..];
      }
      if token == "-" {
        SignIsNoDigit(token);
      }
    }
  }

  lemma {:induction false} SignIsNoDigit(token: string)
    requires token != "" && (token[0] == '+' || token[0] == '-')
    ensures Denoted(token).None?
  {
    if |token| > 1 {
      SignIsNoDigit(token[..|token| - 1]);
    } else {
      assert DigitValue(token[0]).None? && token[..0] == "";
    }
  }

  /** A request fails for its token or for an offset the store takes as negative, and then says which. */
  lemma RefusedRequests(all: seq<string>, requested: int, token: string)
    ensures Answer(all, requested, token) == Err(InvalidToken) <==> DecodePageToken(token).None?
    ensures Answer(all, requested, token) == Err(BackendError) <==>
      DecodePageToken(token).Some? && AsI32(DecodedOffset(token)) < 0
  {
    DecodedFits(token);
  }

  function DecodedOffset(token: string): (offset: nat)
    requires DecodePageToken(token).Some?
    ensures offset < U32_LIMIT
  {
    DecodedFits(token);
    DecodePageToken(token).value
  }
}
