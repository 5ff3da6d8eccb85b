/** The meaning of a page-range specification such as "1,3,5" or "2-4": the
    comma-separated tokens, what each token contributes, and which error is
    reported when a token is rejected. `parse_pages_input` in both entry
    points computes exactly this (see `MainApp.ParsePagesInput` and
    `HelloApp.ParsePagesInput`). */
module PageRange {
  import opened Builtins

  /** The two messages the parser can show: a page outside the document, or
      a token that is not a number or a two-number range (`ValueError`). */
  datatype ParseError = OutOfRange | InvalidFormat

  datatype Result<T> = Ok(value: T) | Err(error: ParseError)

  function Min(a: int, b: int): int {
    if a <= b then a else b
  }

  /** The pages one comma-separated token selects, or why it is rejected.
      A token with a hyphen must split into exactly two integers; only their
      upper bounds are checked, and the range is cut at `maxPage`. A token
      without a hyphen is a single page that must lie in [1, maxPage]. */
  function ParseToken(token: string, maxPage: int): Result<set<int>> {
    if '-' in token then
      var fields := Split(token, '-');
      if |fields| != 2 then Err(InvalidFormat)
      else
        match (ParseInt(fields[0]), ParseInt(fields[1]))
        case (Some(start), Some(end)) =>
          if start > maxPage || end > maxPage then Err(OutOfRange)
          else Ok(Elems(Range(start, Min(end, maxPage) + 1)))
        case _ => Err(InvalidFormat)
    else
      match ParseInt(token)
      case None => Err(InvalidFormat)
      case Some(page) =>
        if page > maxPage || page < 1 then Err(OutOfRange) else Ok({page})
  }

  /** The outcome of each token, in order. */
  function TokenResults(tokens: seq<string>, maxPage: int): (rs: seq<Result<set<int>>>)
    ensures |rs| == |tokens|
    ensures forall i :: 0 <= i < |tokens| ==> rs[i] == ParseToken(tokens[i], maxPage)
  {
    Map(t => ParseToken(t, maxPage), tokens)
  }

  /** Token outcomes taken left to right: the first error stops the parse,
      otherwise the pages are collected. */
  function Combine(rs: seq<Result<set<int>>>): Result<set<int>>
    decreases |rs|
  {
    if rs == [] then Ok({})
    else
      match rs[0]
      case Err(e) => Err(e)
      case Ok(first) =>
        match Combine(rs[1..])
        case Err(e) => Err(e)
        case Ok(rest) => Ok(first + rest)
  }

  /** The selection a list of tokens denotes, taken left to right: the
      first rejected token stops the parse, otherwise each token adds its
      pages. */
  function ParseTokens(tokens: seq<string>, maxPage: int): Result<set<int>>
    decreases |tokens|
  {
    if tokens == [] then Ok({})
    else
      match ParseTokens(tokens[..|tokens| - 1], maxPage)
      case Err(e) => Err(e)
      case Ok(pages) =>
        match ParseToken(tokens[|tokens| - 1], maxPage)
        case Err(e) => Err(e)
        case Ok(more) => Ok(pages + more)
  }

  /** The selection a page-range text denotes. */
  function Parse(input: string, maxPage: int): Result<set<int>> {
    ParseTokens(Split(input, ','), maxPage)
  }

  /** What the caller sees: `parse_pages_input` returns `[]` on error, so an
      error and an empty selection look the same to it. */
  function Selection(r: Result<set<int>>): set<int> {
    if r.Ok? then r.value else {}
  }

  /** The message shown, if any. */
  function Reported(r: Result<set<int>>): Option<ParseError> {
    if r.Err? then Some(r.error) else None
  }

  // ---------------------------------------------------------------------------
  // Lemmas about the left-to-right fold

  /** One more outcome: the fold extends by its pages, or stops with its error. */
  lemma {:induction false} CombineSnoc(rs: seq<Result<set<int>>>, r: Result<set<int>>)
    requires Combine(rs).Ok?
    ensures Combine(rs + [r]) == if r.Err? then r else Ok(Combine(rs).value + r.value)
    decreases |rs|
  {
    if rs == [] {
      assert rs + [r] == [r];
      assert [r][1..] == [];
      if r.Ok? {
        assert r.value + {} == {} + r.value;
      }
    } else {
      assert (rs + [r])[0] == rs[0];
      assert (rs + [r])[1..] == rs[1..] + [r];
      CombineSnoc(rs[1..], r);
      if r.Ok? {
        var first, rest := rs[0].value, Combine(rs[1..]).value;
        assert first + (rest + r.value) == (first + rest) + r.value;
      }
    }
  }

  /** Once a prefix is rejected, what follows changes nothing. */
  lemma {:induction false} CombineErrPrefix(rs: seq<Result<set<int>>>, more: seq<Result<set<int>>>)
    requires Combine(rs).Err?
    ensures Combine(rs + more) == Combine(rs)
    decreases |rs|
  {
    assert (rs + more)[0] == rs[0];
    assert (rs + more)[1..] == rs[1..] + more;
    if rs[0].Ok? {
      CombineErrPrefix(rs[1..], more);
    }
  }

  /** All or nothing: the fold succeeds exactly when every outcome does. */
  lemma {:induction false} CombineOkIff(rs: seq<Result<set<int>>>)
    ensures Combine(rs).Ok? <==> forall i :: 0 <= i < |rs| ==> rs[i].Ok?
    decreases |rs|
  {
    if rs != [] {
      CombineOkIff(rs[1..]);
      assert forall i :: 0 < i < |rs| ==> rs[i] == rs[1..][i - 1];
    }
  }

  /** The first error decides, whatever follows it. */
  lemma {:induction false} CombineFirstError(rs: seq<Result<set<int>>>, k: nat)
    requires k < |rs| && rs[k].Err?
    requires forall i :: 0 <= i < k ==> rs[i].Ok?
    ensures Combine(rs) == rs[k]
    decreases k
  {
    if k > 0 {
      assert forall i :: 0 <= i < k - 1 ==> rs[1..][i] == rs[i + 1];
      CombineFirstError(rs[1..], k - 1);
    }
  }

  /** On success the pages are the union of every outcome's pages. */
  lemma {:induction false} CombineUnion(rs: seq<Result<set<int>>>)
    requires Combine(rs).Ok?
    ensures forall p :: p in Combine(rs).value <==> exists i :: 0 <= i < |rs| && rs[i].Ok? && p in rs[i].value
    decreases |rs|
  {
    if rs != [] {
      CombineUnion(rs[1..]);
      forall p
        ensures p in Combine(rs).value <==> exists i :: 0 <= i < |rs| && rs[i].Ok? && p in rs[i].value
      {
        if p in Combine(rs).value && p !in rs[0].value {
          var i :| 0 <= i < |rs[1..]| && rs[1..][i].Ok? && p in rs[1..][i].value;
          assert rs[i + 1] == rs[1..][i];
        }
        if exists i :: 0 <= i < |rs| && rs[i].Ok? && p in rs[i].value {
          var i :| 0 <= i < |rs| && rs[i].Ok? && p in rs[i].value;
          if i > 0 {
            assert rs[1..][i - 1] == rs[i];
          }
        }
      }
    }
  }

  // ---------------------------------------------------------------------------
  // Properties of the parse, token by token

  /** All or nothing: the tokens parse exactly when each of them does, and
      when one does not, the result is the error of the first one that fails,
      even if the tokens before it were valid. */
  lemma ParseTokensAllOrNothing(tokens: seq<string>, maxPage: int)
    ensures ParseTokens(tokens, maxPage).Ok? <==>
      forall i :: 0 <= i < |tokens| ==> ParseToken(tokens[i], maxPage).Ok?
    ensures forall k ::
      (0 <= k < |tokens| && ParseToken(tokens[k], maxPage).Err? &&
       forall i :: 0 <= i < k ==> ParseToken(tokens[i], maxPage).Ok?) ==>
      ParseTokens(tokens, maxPage) == ParseToken(tokens[k], maxPage)
  {
    var rs := TokenResults(tokens, maxPage);
    ParseTokensIsCombine(tokens, maxPage);
    CombineOkIff(rs);
    forall k | 0 <= k < |tokens| && ParseToken(tokens[k], maxPage).Err? &&
      (forall i :: 0 <= i < k ==> ParseToken(tokens[i], maxPage).Ok?)
      ensures ParseTokens(tokens, maxPage) == ParseToken(tokens[k], maxPage)
    {
      CombineFirstError(rs, k);
    }
  }

  /** Taking one more token: the selection grows by its pages, or the parse
      stops with its error. */
  lemma ParseTokensStep(tokens: seq<string>, k: nat, maxPage: int)
    requires k < |tokens| && ParseTokens(tokens[..k], maxPage).Ok?
    ensures ParseTokens(tokens[..k + 1], maxPage) ==
      var r := ParseToken(tokens[k], maxPage);
      if r.Err? then r else Ok(ParseTokens(tokens[..k], maxPage).value + r.value)
  {
    assert tokens[..k + 1][..k] == tokens[..k];
  }

  /** A loop over the tokens that has collected the pages of the first `k`
      tokens and takes the pages `added` of token `k` has collected those of
      the first `k + 1`. */
  lemma ParseTokensExtend(tokens: seq<string>, k: nat, maxPage: int, collected: seq<int>, added: seq<int>)
    requires k < |tokens| && ParseTokens(tokens[..k], maxPage) == Ok(Elems(collected))
    requires ParseToken(tokens[k], maxPage) == Ok(Elems(added))
    ensures ParseTokens(tokens[..k + 1], maxPage) == Ok(Elems(collected + added))
  {
    ParseTokensStep(tokens, k, maxPage);
    assert Elems(collected + added) == Elems(collected) + Elems(added);
  }

  /** A loop over the tokens that meets a rejected token after accepted ones
      stops with that token's error, which is the error of the whole parse. */
  lemma ParseTokensFail(tokens: seq<string>, k: nat, maxPage: int, e: ParseError)
    requires k < |tokens| && ParseTokens(tokens[..k], maxPage).Ok?
    requires ParseToken(tokens[k], maxPage) == Err(e)
    ensures ParseTokens(tokens, maxPage) == Err(e)
  {
    ParseTokensStep(tokens, k, maxPage);
    ParseTokensStop(tokens, k + 1, maxPage);
  }

  /** The outcomes of a token list are those of all but its last token,
      then the outcome of the last one. */
  lemma TokenResultsLast(tokens: seq<string>, maxPage: int)
    requires tokens != []
    ensures TokenResults(tokens, maxPage) ==
      TokenResults(tokens[..|tokens| - 1], maxPage) + [ParseToken(tokens[|tokens| - 1], maxPage)]
  {
    MapLast(t => ParseToken(t, maxPage), tokens);
  }

  /** Once the tokens up to `k` are rejected, the whole parse is rejected
      with the same error. */
  lemma {:induction false} ParseTokensStop(tokens: seq<string>, k: nat, maxPage: int)
    requires k <= |tokens| && ParseTokens(tokens[..k], maxPage).Err?
    ensures ParseTokens(tokens, maxPage) == ParseTokens(tokens[..k], maxPage)
    decreases |tokens|
  {
    if k == |tokens| {
      assert tokens[..k] == tokens;
    } else {
      var init := tokens[..|tokens| - 1];
      assert init[..k] == tokens[..k];
      ParseTokensStop(init, k, maxPage);
    }
  }

  /** The parse is the fold `Combine` over the outcomes of the tokens. */
  lemma {:induction false} ParseTokensIsCombine(tokens: seq<string>, maxPage: int)
    ensures ParseTokens(tokens, maxPage) == Combine(TokenResults(tokens, maxPage))
    decreases |tokens|
  {
    if tokens != [] {
      var n := |tokens| - 1;
      var init, r := tokens[..n], ParseToken(tokens[n], maxPage);
      ParseTokensIsCombine(init, maxPage);
      TokenResultsLast(tokens, maxPage);
      var rs := TokenResults(init, maxPage);
      if Combine(rs).Ok? {
        CombineSnoc(rs, r);
      } else {
        CombineErrPrefix(rs, [r]);
      }
    }
  }

  /** On success the selection is the union of what each token selects. */
  lemma ParseTokensUnion(tokens: seq<string>, maxPage: int)
    requires ParseTokens(tokens, maxPage).Ok?
    ensures forall p :: p in ParseTokens(tokens, maxPage).value <==>
      exists i :: 0 <= i < |tokens| && ParseToken(tokens[i], maxPage).Ok? && p in ParseToken(tokens[i], maxPage).value
  {
    var rs := TokenResults(tokens, maxPage);
    ParseTokensIsCombine(tokens, maxPage);
    CombineUnion(rs);
    CombineOkIff(rs);
    forall p
      ensures p in ParseTokens(tokens, maxPage).value <==>
        exists i :: 0 <= i < |tokens| && ParseToken(tokens[i], maxPage).Ok? && p in ParseToken(tokens[i], maxPage).value
    {
      if p in ParseTokens(tokens, maxPage).value {
        var i :| 0 <= i < |rs| && rs[i].Ok? && p in rs[i].value;
        assert p in ParseToken(tokens[i], maxPage).value;
      }
      if exists i :: 0 <= i < |tokens| && ParseToken(tokens[i], maxPage).Ok? && p in ParseToken(tokens[i], maxPage).value {
        var i :| 0 <= i < |tokens| && ParseToken(tokens[i], maxPage).Ok? && p in ParseToken(tokens[i], maxPage).value;
        assert rs[i].Ok? && p in rs[i].value;
      }
    }
  }

  /** Neither the order of the tokens nor repeating a token changes whether
      the parse succeeds or what it selects: two token lists with the same
      tokens both succeed or both fail, and on success select the same
      pages. Which error is reported can depend on the order (see
      `OrderDecidesError`). */
  lemma ParseTokensOrderIndependent(a: seq<string>, b: seq<string>, maxPage: int)
    requires forall t :: t in a <==> t in b
    ensures ParseTokens(a, maxPage).Ok? == ParseTokens(b, maxPage).Ok?
    ensures ParseTokens(a, maxPage).Ok? ==> ParseTokens(a, maxPage).value == ParseTokens(b, maxPage).value
  {
    ParseTokensAllOrNothing(a, maxPage);
    ParseTokensAllOrNothing(b, maxPage);
    if forall i :: 0 <= i < |a| ==> ParseToken(a[i], maxPage).Ok? {
      forall j | 0 <= j < |b| ensures ParseToken(b[j], maxPage).Ok? {
        assert b[j] in a;
        var i :| 0 <= i < |a| && a[i] == b[j];
      }
    } else if forall j :: 0 <= j < |b| ==> ParseToken(b[j], maxPage).Ok? {
      forall i | 0 <= i < |a| ensures ParseToken(a[i], maxPage).Ok? {
        assert a[i] in b;
        var j :| 0 <= j < |b| && b[j] == a[i];
      }
    }
    if ParseTokens(a, maxPage).Ok? {
      ParseTokensUnion(a, maxPage);
      ParseTokensUnion(b, maxPage);
      forall p ensures p in ParseTokens(a, maxPage).value <==> p in ParseTokens(b, maxPage).value {
        if p in ParseTokens(a, maxPage).value {
          var i :| 0 <= i < |a| && ParseToken(a[i], maxPage).Ok? && p in ParseToken(a[i], maxPage).value;
          assert a[i] in b;
          var j :| 0 <= j < |b| && b[j] == a[i];
        }
        if p in ParseTokens(b, maxPage).value {
          var i :| 0 <= i < |b| && ParseToken(b[i], maxPage).Ok? && p in ParseToken(b[i], maxPage).value;
          assert b[i] in a;
          var j :| 0 <= j < |a| && a[j] == b[i];
        }
      }
    }
  }

  /** Every page a token selects lies in [0, maxPage], and in [1, maxPage]
      for a single page; a range's start has no lower bound check, but its
      fields carry no minus sign, so it is never negative. */
  lemma TokenPagesBounded(token: string, maxPage: int)
    ensures ParseToken(token, maxPage).Ok? ==> forall p <- ParseToken(token, maxPage).value :: 0 <= p <= maxPage
    ensures ParseToken(token, maxPage).Ok? && '-' !in token ==> forall p <- ParseToken(token, maxPage).value :: 1 <= p
  {
    if '-' in token {
      var fields := Split(token, '-');
      if |fields| == 2 {
        assert fields[0] in fields && fields[1] in fields;
        ParseIntNonNegative(fields[0]);
      }
    }
  }

  /** Every page the parser returns lies in [0, maxPage]; 0 is only reachable
      through a range such as "0-2", because a range's start has no lower bound. */
  lemma ParsedPagesBounded(input: string, maxPage: int)
    ensures Parse(input, maxPage).Ok? ==> forall p <- Parse(input, maxPage).value :: 0 <= p <= maxPage
  {
    var tokens := Split(input, ',');
    if Parse(input, maxPage).Ok? {
      ParseTokensUnion(tokens, maxPage);
      forall p | p in Parse(input, maxPage).value
        ensures 0 <= p <= maxPage
      {
        var i :| 0 <= i < |tokens| && ParseToken(tokens[i], maxPage).Ok? && p in ParseToken(tokens[i], maxPage).value;
        TokenPagesBounded(tokens[i], maxPage);
      }
    }
  }

  // ---------------------------------------------------------------------------
  // Properties of single tokens

  /** A range "start-end" between two decimal numbers: out of range when
      either bound exceeds `maxPage`, otherwise every page from `start` to
      `end`; a reversed range selects nothing and is not an error, and a start
      of 0 is accepted. */
  lemma RangeToken(start: nat, end: nat, maxPage: int)
    ensures ParseToken(NatToString(start) + "-" + NatToString(end), maxPage) ==
      if start > maxPage || end > maxPage then Err(OutOfRange)
      else Ok(Elems(Range(start, end + 1)))
  {
    var a, b := NatToString(start), NatToString(end);
    NoHyphenInNumber(start);
    NoHyphenInNumber(end);
    SplitPair(a, b, '-');
    ParseIntOfNat(start);
    ParseIntOfNat(end);
    HyphenToken(a + "-" + b, a, b, start, end, maxPage);
  }

  lemma NoHyphenInNumber(n: nat)
    ensures '-' !in NatToString(n)
  {
    assert forall c <- NatToString(n) :: IsDigit(c);
  }

  /** `ParseToken` on a token whose two hyphen-separated fields are the
      integers `start` and `end`. */
  lemma HyphenToken(token: string, x: string, y: string, start: int, end: int, maxPage: int)
    requires Split(token, '-') == [x, y]
    requires ParseInt(x) == Some(start) && ParseInt(y) == Some(end)
    ensures ParseToken(token, maxPage) ==
      if start > maxPage || end > maxPage then Err(OutOfRange)
      else Ok(Elems(Range(start, end + 1)))
  {
    assert '-' in token by {
      if '-' !in token {
        SplitWithoutSep(token, '-');
      }
    }
    var fields := Split(token, '-');
    assert |fields| == 2 && fields[0] == x && fields[1] == y;
  }

  /** `ParseToken` on a token without a hyphen. */
  lemma PageTokenCases(token: string, maxPage: int)
    requires '-' !in token
    ensures ParseToken(token, maxPage) ==
      if ParseInt(token).None? then Err(InvalidFormat)
      else if ParseInt(token).value > maxPage || ParseInt(token).value < 1 then Err(OutOfRange)
      else Ok({ParseInt(token).value})
  {
  }

  /** A single decimal page number is accepted exactly when it lies in
      [1, maxPage]. */
  lemma SingleToken(page: nat, maxPage: int)
    ensures ParseToken(NatToString(page), maxPage) ==
      if page < 1 || page > maxPage then Err(OutOfRange) else Ok({page})
  {
    NoHyphenInNumber(page);
    ParseIntOfNat(page);
    PageTokenCases(NatToString(page), maxPage);
  }

  /** A hyphenated token that does not split into exactly two fields is a
      format error, whatever the fields are ("1-2-3"). */
  lemma ExtraHyphenRejected(token: string, maxPage: int)
    requires multiset(token)['-'] >= 2
    ensures ParseToken(token, maxPage) == Err(InvalidFormat)
  {
    assert '-' in token;
  }

  /** A hyphenated token with an empty side is a format error ("-3", "1-"),
      and so is an empty token (""). */
  lemma EmptyFieldRejected(a: string, b: string, maxPage: int)
    requires '-' !in a && '-' !in b
    requires a == [] || b == []
    ensures ParseToken(a + "-" + b, maxPage) == Err(InvalidFormat)
    ensures ParseToken("", maxPage) == Err(InvalidFormat)
  {
    assert a + "-" + b == a + ['-'] + b;
    assert (a + "-" + b)[|a|] == '-';
    SplitPair(a, b, '-');
    assert Strip("") == "";
  }

  /** A token without a digit and without a hyphen is a format error ("a",
      "", " "), whatever the document's page count. */
  lemma NoDigitRejected(token: string, maxPage: int)
    requires '-' !in token
    requires forall c <- token :: !IsDigit(c)
    ensures ParseToken(token, maxPage) == Err(InvalidFormat)
  {
    ParseIntNeedsDigit(token);
  }

  /** A hyphen-free token that starts with a character other than
      whitespace, a sign or a digit is a format error: `"a5"`, and also
      `"\x1c5"`, since `int()` does not skip the separators `\x1c` to
      `\x1f`. */
  lemma StrayLeadRejected(token: string, maxPage: int)
    requires '-' !in token
    requires token != [] && !IsSpace(token[0]) && !IsDigit(token[0]) && token[0] != '+'
    ensures ParseToken(token, maxPage) == Err(InvalidFormat)
  {
    ParseIntBadLead(token);
  }

  /** The token `"\x1c5"` is rejected, not read as page 5. */
  lemma SeparatorThenDigitRejected(maxPage: int)
    ensures ParseToken("\U{1C}5", maxPage) == Err(InvalidFormat)
  {
    StrayLeadRejected("\U{1C}5", maxPage);
  }

  /** The first rejected token's error is the one shown, so reordering the
      tokens can change the message: `a,20` is a format error and `20,a` is
      out of range in a ten-page document. */
  lemma OrderDecidesError()
    ensures ParseTokens(["a", "20"], 10) == Err(InvalidFormat)
    ensures ParseTokens(["20", "a"], 10) == Err(OutOfRange)
  {
    NoDigitRejected("a", 10);
    ParseIntOfDigitText("20");
    assert DigitsValue("20") == 20 by {
      assert "20"[..1] == "2";
    }
    assert ["a", "20"][..1] == ["a"] && ["20", "a"][..1] == ["20"];
  }
}
