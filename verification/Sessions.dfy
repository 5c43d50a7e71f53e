/** Short-lived signed play sessions (app/features/games/sessions.py). */
module Sessions {
  import opened Basics
  import opened Decimal

  /** The signature of two fields: an arbitrary function whose value has no dot (it is hexadecimal). */
  type Sig = (string, string) -> string

  ghost predicate DotFree(s: string) {
    forall i :: 0 <= i < |s| ==> s[i] != '.'
  }

  ghost predicate HexSig(sig: Sig) {
    forall a, b :: DotFree(sig(a, b))
  }

  /**
   * `int(s)`, None for its ValueError. It reads back what `str` prints; what other texts it takes (blanks,
   * underscores, digits of other scripts) is left to the parser.
   */
  type Parser = string -> Option<int>

  ghost predicate ReadsPrinted(parse: Parser) {
    forall i :: parse(Show(i)) == Some(i)
  }

  /** There is such a parser: the one for plain numerals. */
  lemma PlainParserReadsPrinted()
    ensures ReadsPrinted(Read)
  {
    forall i
      ensures Read(Show(i)) == Some(i)
    {
      ReadShow(i);
    }
  }

  datatype Session = Session(seed: int, issuedAt: int)

  datatype SessionError = Malformed | BadSignature | NotYetValid | Expired

  function SignSession(sig: Sig, seed: int, issuedAt: int): string {
    Show(seed) + "." + Show(issuedAt) + "." + sig(Show(seed), Show(issuedAt))
  }

  /** `token.split(".")` */
  function Split(s: string): (parts: seq<string>)
    ensures |parts| > 0
  {
    if |s| == 0 then [""]
    else
      var rest := Split(s[1..]);
      if s[0] == '.' then [""] + rest else [[s[0]] + rest[0]] + rest[1..]
  }

  function VerifySession(sig: Sig, parse: Parser, token: string, now: int, ttl: int): Result<Session, SessionError> {
    var parts := Split(token);
    if |parts| != 3 then Err(Malformed)
    else if parts[2] != sig(parts[0], parts[1]) then Err(BadSignature)
    else
      var seed, issued := parse(parts[0]), parse(parts[1]);
      if seed.None? || issued.None? then Err(Malformed)
      else if issued.value - now > 60 then Err(NotYetValid)
      else if now - issued.value > ttl then Err(Expired)
      else Ok(Session(seed.value, issued.value))
  }

  lemma {:induction false} SplitField(a: string, rest: string)
    requires DotFree(a)
    ensures Split(a + "." + rest) == [a] + Split(rest)
  {
    var s := a + "." + rest;
    if |a| == 0 {
      assert s[1..] == rest;
    } else {
      assert s[1..] == a[1..] + "." + rest;
      SplitField(a[1..], rest);
      assert [a[0]] + a[1..] == a;
    }
  }

  lemma {:induction false} SplitLast(a: string)
    requires DotFree(a)
    ensures Split(a) == [a]
  {
    if |a| > 0 {
      SplitLast(a[1..]);
      assert [a[0]] + a[1..] == a;
    }
  }

  lemma ShowHasNoDot(i: int)
    ensures DotFree(Show(i))
  {
    var n := ShowNat(if i < 0 then -i else i);
    assert forall k :: 0 <= k < |n| ==> IsDigit(n[k]);
  }

  /**
   * A signed token verifies to the seed and time it was signed with exactly while
   * -60 <= now - issued <= ttl; before and after it is refused for that reason.
   */
  lemma VerifySigned(sig: Sig, parse: Parser, seed: int, issuedAt: int, now: int, ttl: int)
    requires HexSig(sig) && ReadsPrinted(parse)
    ensures var r := VerifySession(sig, parse, SignSession(sig, seed, issuedAt), now, ttl);
            && (r == Ok(Session(seed, issuedAt)) <==> -60 <= now - issuedAt <= ttl)
            && (now - issuedAt < -60 ==> r == Err(NotYetValid))
            && (-60 <= now - issuedAt && now - issuedAt > ttl ==> r == Err(Expired))
  {
    SignedSplits(sig, seed, issuedAt);
  }

  /** A signed token has three fields: the two numerals and their signature. */
  lemma SignedSplits(sig: Sig, seed: int, issuedAt: int)
    requires HexSig(sig)
    ensures Split(SignSession(sig, seed, issuedAt)) == [Show(seed), Show(issuedAt), sig(Show(seed), Show(issuedAt))]
  {
    var a, b := Show(seed), Show(issuedAt);
    ShowHasNoDot(seed);
    ShowHasNoDot(issuedAt);
    SplitLast(sig(a, b));
    SplitField(b, sig(a, b));
    SplitField(a, b + "." + sig(a, b));
    assert SignSession(sig, seed, issuedAt) == a + "." + (b + "." + sig(a, b));
  }

  function Join(parts: seq<string>): string
    requires |parts| > 0
  {
    if |parts| == 1 then parts[0] else parts[0] + "." + Join(parts[1..])
  }

  lemma {:induction false} JoinSplit(s: string)
    ensures Join(Split(s)) == s
  {
    if |s| > 0 {
      JoinSplit(s[1..]);
      var rest := Split(s[1..]);
      if s[0] == '.' {
        assert ([""] + rest)[1..] == rest;
      } else {
        assert ([[s[0]] + rest[0]] + rest[1..])[1..] == rest[1..];
      }
      assert s == [s[0]] + s[1..];
    }
  }

  /** Conversely, whatever verifies is two numerals and the signature of those very numerals, inside the window. */
  lemma VerifiedWasSigned(sig: Sig, parse: Parser, token: string, now: int, ttl: int)
    requires VerifySession(sig, parse, token, now, ttl).Ok?
    ensures exists a, b ::
              && token == a + "." + b + "." + sig(a, b)
              && parse(a) == Some(VerifySession(sig, parse, token, now, ttl).value.seed)
              && parse(b) == Some(VerifySession(sig, parse, token, now, ttl).value.issuedAt)
    ensures -60 <= now - VerifySession(sig, parse, token, now, ttl).value.issuedAt <= ttl
  {
    var parts := Split(token);
    JoinSplit(token);
    assert parts[1..][0] == parts[1] && parts[1..][1..][0] == parts[2];
    assert Join(parts[1..][1..]) == parts[2] && Join(parts[1..]) == parts[1] + "." + parts[2];
    assert token == parts[0] + "." + (parts[1] + "." + parts[2]);
    assert token == parts[0] + "." + parts[1] + "." + sig(parts[0], parts[1]);
  }

  // ---- `_verify_play_session` (app/features/games/service.py) ----

  datatype PlayError = MissingToken | InvalidSession(e: SessionError) | WrongRound | TooLong

  /** `roundSeed` is None for a round without a payload; `durationMs` is None when it is not an integer. */
  function VerifyPlay(sig: Sig, parse: Parser, token: Option<string>, roundSeed: Option<int>, durationMs: Option<int>,
                      now: int, ttl: int)
    : Result<Session, PlayError>
  {
    if token.None? || token.value == "" then Err(MissingToken)
    else
      var r := VerifySession(sig, parse, token.value, now, ttl);
      if r.Err? then Err(InvalidSession(r.error))
      else if roundSeed.Some? && r.value.seed != roundSeed.value then Err(WrongRound)
      else if durationMs.Some? && durationMs.value > (now - r.value.issuedAt) * 1000 + 2000 then Err(TooLong)
      else Ok(r.value)
  }

  /** A play without a token, or with an empty one, is refused for that before anything else; no other play is. */
  lemma TokenMissing(sig: Sig, parse: Parser, token: Option<string>, roundSeed: Option<int>, durationMs: Option<int>,
                     now: int, ttl: int)
    ensures VerifyPlay(sig, parse, token, roundSeed, durationMs, now, ttl) == Err(MissingToken)
            <==> token == None || token == Some("")
  {
  }

  /**
   * A play with a signed token passes exactly inside its window, for the round's own seed when the round has one,
   * and when no longer than the elapsed time plus two seconds; and it is refused for the first of these that fails.
   */
  lemma PlayPasses(sig: Sig, parse: Parser, seed: int, issuedAt: int, roundSeed: Option<int>, durationMs: Option<int>,
                   now: int, ttl: int)
    requires HexSig(sig) && ReadsPrinted(parse)
    ensures var r := VerifyPlay(sig, parse, Some(SignSession(sig, seed, issuedAt)), roundSeed, durationMs, now, ttl);
            var window := -60 <= now - issuedAt <= ttl;
            var ours := roundSeed.None? || roundSeed.value == seed;
            var fits := durationMs.None? || durationMs.value <= (now - issuedAt) * 1000 + 2000;
            && (r == Ok(Session(seed, issuedAt)) <==> window && ours && fits)
            && (r == Err(WrongRound) <==> window && !ours)
            && (r == Err(TooLong) <==> window && ours && !fits)
            && (r.Err? && r.error.InvalidSession? <==> !window)
  {
    VerifySigned(sig, parse, seed, issuedAt, now, ttl);
    assert |SignSession(sig, seed, issuedAt)| > 0;
  }

  /** An honest play of today's round is accepted, and only within the session's lifetime plus two seconds of slack. */
  lemma HonestPlay(sig: Sig, parse: Parser, seed: int, issuedAt: int, durationMs: int, now: int, ttl: int)
    requires HexSig(sig) && ReadsPrinted(parse)
    ensures VerifyPlay(sig, parse, Some(SignSession(sig, seed, issuedAt)), Some(seed), Some(durationMs), now, ttl).Ok?
            <==> -60 <= now - issuedAt <= ttl && durationMs <= (now - issuedAt) * 1000 + 2000
  {
    VerifySigned(sig, parse, seed, issuedAt, now, ttl);
    assert |SignSession(sig, seed, issuedAt)| > 0;
  }
}
