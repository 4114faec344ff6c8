/*
  Temporary authentication tokens for the launcher. A token is generated
  (not validated, no JWT), later validated (a JWT is attached and its date
  refreshed) and finally verified, which hands it out and forgets it. A
  background sweep forgets tokens by age.

  The service keeps a table from hash to token and a list of hashes for
  the sweep. Tokens are objects shared between the table and callers, so
  validating a token is visible through every reference to it. Times are
  integer milliseconds; the clock is a `now` parameter and the random
  generator a caller-supplied sequence of draws.
*/
module TemporaryToken {
  import opened Common

  /** The alphabet of token hashes. */
  const Chars: string := "ABCDEFGHIJKLMNOPQRSTUVWXYZ0123456789"

  /** The length of every generated hash. */
  const HashLength := 16

  /** One draw of the random generator: an index into `Chars`. */
  type Draw = x: int | 0 <= x < 36

  /** The character the alphabet holds at `d`, written out by ranges. */
  function AlphaChar(d: Draw): char
  {
    if d < 26 then ('A' as int + d) as char else ('0' as int + d - 26) as char
  }

  /** The alphabet is the 26 capital letters followed by the 10 digits. */
  lemma CharsSpelled()
    ensures |Chars| == 36
    ensures forall d: Draw :: Chars[d] == AlphaChar(d)
  {
  }

  /** A string of `length` characters of the alphabet, one per draw. */
  function RandomAlphaNumeric(length: nat, draws: seq<Draw>): (s: string)
    requires |draws| == length
    ensures |s| == length
    ensures forall i :: 0 <= i < |s| ==> s[i] in Chars && s[i] == Chars[draws[i]]
  {
    seq(length, i requires 0 <= i < length => Chars[draws[i]])
  }

  /** Different draws give different strings: the alphabet has no
      repeated character. */
  lemma AlphaNumericInjective(length: nat, d1: seq<Draw>, d2: seq<Draw>)
    requires |d1| == length && |d2| == length
    requires RandomAlphaNumeric(length, d1) == RandomAlphaNumeric(length, d2)
    ensures d1 == d2
  {
    CharsSpelled();
    forall i | 0 <= i < length ensures d1[i] == d2[i] {
      assert RandomAlphaNumeric(length, d1)[i] == RandomAlphaNumeric(length, d2)[i];
    }
  }

  /** The minutes component of a time span of `spanMs` milliseconds, as a
      signed component in -59..59: whole minutes modulo one hour, with the
      sign of the span. */
  function MinutesComponent(spanMs: int): (m: int)
    ensures -59 <= m <= 59
    ensures spanMs >= 0 ==> m >= 0
    ensures spanMs < 0 ==> m <= 0
  {
    if spanMs >= 0 then (spanMs / 60000) % 60 else -((-spanMs / 60000) % 60)
  }

  /** The sweep's test: the span's minutes component is at least 1, which
      no span under a minute has. */
  predicate Expired(spanMs: int)
    ensures Expired(spanMs) ==> 60000 <= spanMs
  {
    MinutesComponent(spanMs) >= 1
  }

  /** The test reads the minutes component, not the total age: a token
      between one minute and one hour old is expired, one between one hour
      and one hour and a minute is not, and neither is one dated in the
      future. */
  lemma ExpiredIsMinutesComponent(spanMs: int)
    ensures 60000 <= spanMs < 3600000 ==> Expired(spanMs)
    ensures 3600000 <= spanMs < 3660000 ==> !Expired(spanMs)
    ensures spanMs < 60000 ==> !Expired(spanMs)
  {
  }

  /** `hs` without the hashes listed in `drop`, in order. */
  function Except(hs: seq<string>, drop: seq<string>): (r: seq<string>)
    ensures |r| <= |hs|
    ensures forall x :: x in r <==> x in hs && x !in drop
    ensures forall x :: x !in drop ==> multiset(r)[x] == multiset(hs)[x]
  {
    if hs == [] then []
    else
      var init := Except(hs[..|hs| - 1], drop);
      var x := hs[|hs| - 1];
      assert hs == hs[..|hs| - 1] + [x];
      if x in drop then init else init + [x]
  }

  /** The hashes one sweep forgets, in list order: a listed hash whose
      token is expired, unless an earlier occurrence already forgot it.
      A listed hash with no token is passed over. */
  function Swept(hs: seq<string>, dates: map<string, int>, now: int): (r: seq<string>)
    ensures |r| <= |hs|
    ensures forall x :: x in r ==> x in hs && x in dates
  {
    if hs == [] then []
    else
      var r := Swept(hs[..|hs| - 1], dates, now);
      var x := hs[|hs| - 1];
      if x in dates && x !in r && Expired(now - dates[x]) then r + [x] else r
  }

  /** Sweeping one more listed hash extends the sweep of the prefix by
      that hash exactly when it has an expired token not yet forgotten. */
  lemma SweptSnoc(hs: seq<string>, i: int, dates: map<string, int>, now: int)
    requires 0 <= i < |hs|
    ensures Swept(hs[..i + 1], dates, now) ==
              var r := Swept(hs[..i], dates, now);
              if hs[i] in dates && hs[i] !in r && Expired(now - dates[hs[i]]) then r + [hs[i]] else r
  {
    assert hs[..i + 1][..i] == hs[..i];
  }

  /** A sweep forgets exactly the listed hashes whose tokens are expired,
      each once. */
  lemma {:induction false} SweptExact(hs: seq<string>, dates: map<string, int>, now: int)
    ensures forall x :: x in Swept(hs, dates, now) <==> x in hs && x in dates && Expired(now - dates[x])
    ensures forall i, j :: 0 <= i < j < |Swept(hs, dates, now)| ==>
              Swept(hs, dates, now)[i] != Swept(hs, dates, now)[j]
  {
    if hs != [] {
      SweptExact(hs[..|hs| - 1], dates, now);
      assert hs == hs[..|hs| - 1] + [hs[|hs| - 1]];
    }
  }

  /** A listed hash whose token is missing stays listed after the sweep's
      final filter, and so does one whose token is not expired. */
  lemma SweepKeepsListed(hs: seq<string>, dates: map<string, int>, now: int, x: string)
    requires x in hs
    ensures x in Except(hs, Swept(hs, dates, now)) <==> x !in dates || !Expired(now - dates[x])
  {
    SweptExact(hs, dates, now);
  }

  /** A temporary token. The service and its callers share it. */
  class TemporaryAuthToken {
    var tokenHash: string
    var date: int
    var validated: bool
    var jwtAttached: Option<string>

    constructor(tokenHash: string, date: int)
      ensures this.tokenHash == tokenHash && this.date == date
      ensures !validated && jwtAttached == None
    {
      this.tokenHash := tokenHash;
      this.date := date;
      validated := false;
      jwtAttached := None;
    }
  }

  class TemporaryTokenService {
    var tokens: map<string, TemporaryAuthToken>
    var inQueueHash: seq<string>

    /** Every token is filed under its own hash, and the empty hash is
        never filed. */
    ghost predicate Valid()
      reads this, tokens.Values
    {
      && "" !in tokens
      && forall h :: h in tokens ==> tokens[h].tokenHash == h
    }

    /** The date of every filed token, by hash. */
    ghost function Dates(): map<string, int>
      reads this, tokens.Values
    {
      map h | h in tokens :: tokens[h].date
    }

    constructor()
      ensures Valid() && tokens == map[] && inQueueHash == []
    {
      tokens := map[];
      inQueueHash := [];
    }

    /** Attaches `jwt` to the token filed under `hash`, marks it validated
        and refreshes its date; an unknown hash changes nothing. Always
        answers false. */
    method ValidateTemporaryAuthToken(hash: string, jwt: Option<string>, now: int) returns (b: bool)
      requires Valid()
      modifies if hash in tokens then {tokens[hash]} else {}
      ensures Valid() && !b
      ensures hash in tokens ==>
                && tokens[hash].jwtAttached == jwt && tokens[hash].validated
                && tokens[hash].date == now && tokens[hash].tokenHash == hash
    {
      if hash in tokens {
        var token := tokens[hash];
        token.jwtAttached := jwt;
        token.validated := true;
        token.date := now;
      }
      return false;
    }

    /** Creates a token for a fresh random hash and lists the hash for the
        sweep. The retry loop runs its body exactly once, and a hash that
        is already filed keeps its old token: the new one is returned but
        not filed. */
    method GenerateTemporaryAuthToken(draws: seq<Draw>, now: int) returns (token: TemporaryAuthToken)
      requires Valid() && |draws| == HashLength
      modifies this
      ensures Valid() && fresh(token)
      ensures token.tokenHash == RandomAlphaNumeric(HashLength, draws)
      ensures token.date == now && !token.validated && token.jwtAttached == None
      ensures tokens == if token.tokenHash in old(tokens) then old(tokens)
                        else old(tokens)[token.tokenHash := token]
      ensures inQueueHash == old(inQueueHash) + [token.tokenHash]
    {
      var hash := "";
      ghost var rounds := 0;
      while hash == "" && hash !in tokens
        invariant rounds == 0 ==> hash == ""
        invariant rounds > 0 ==> rounds == 1 && hash == RandomAlphaNumeric(HashLength, draws)
        decreases if hash == "" then 1 else 0
      {
        hash := RandomAlphaNumeric(HashLength, draws);
        rounds := rounds + 1;
      }
      assert rounds == 1;
      token := new TemporaryAuthToken(hash, now);
      if hash !in tokens {
        tokens := tokens[hash := token];
      }
      inQueueHash := inQueueHash + [hash];
    }

    /** Hands out the token filed under `hash`, if any. A validated token
        with a JWT attached is also forgotten: unfiled and unlisted. */
    method VerifyTemporaryAuthToken(hash: string) returns (token: Option<TemporaryAuthToken>)
      requires Valid()
      modifies this
      ensures Valid()
      ensures token == if hash in old(tokens) then Some(old(tokens)[hash]) else None
      ensures if token.Some? && token.value.validated && token.value.jwtAttached.Some? then
                tokens == old(tokens) - {hash} && inQueueHash == Except(old(inQueueHash), [hash])
              else
                tokens == old(tokens) && inQueueHash == old(inQueueHash)
    {
      token := if hash in tokens then Some(tokens[hash]) else None;
      if token.Some? && token.value.validated && token.value.jwtAttached.Some? {
        tokens := tokens - {hash};
        inQueueHash := Except(inQueueHash, [hash]);
      }
    }

    /** One pass of the sweep: every listed hash whose token's age has a
        minutes component of at least 1 is unfiled, then the list keeps
        only the hashes that were not unfiled. A listed hash with no token
        raises inside the per-hash handler and is passed over. */
    method SweepStep(now: int) returns (hashToRemove: seq<string>)
      requires Valid()
      modifies this`tokens, this`inQueueHash
      ensures Valid()
      ensures hashToRemove == Swept(old(inQueueHash), old(Dates()), now)
      ensures tokens == map h | h in old(tokens) && h !in hashToRemove :: old(tokens)[h]
      ensures inQueueHash == Except(old(inQueueHash), hashToRemove)
    {
      var hs := inQueueHash;
      ghost var t0, d0 := tokens, Dates();
      hashToRemove := [];
      var i := 0;
      assert hs[..i] == [];
      while i < |hs|
        invariant 0 <= i <= |hs|
        invariant hashToRemove == Swept(hs[..i], d0, now)
        invariant tokens == map h | h in t0 && h !in hashToRemove :: t0[h]
        modifies this`tokens
      {
        SweptSnoc(hs, i, d0, now);
        hashToRemove := SweepHash(hs[i], now, hashToRemove, t0, d0);
        i := i + 1;
      }
      assert hs[..i] == hs;
      inQueueHash := Except(inQueueHash, hashToRemove);
    }

    /** The per-hash body of the sweep: unfiles `x` and records it in
        `removed` when its token's age has a minutes component of at least
        1. A hash with no token is passed over. */
    method SweepHash(x: string, now: int, removed: seq<string>,
                     ghost t0: map<string, TemporaryAuthToken>, ghost d0: map<string, int>)
      returns (removed': seq<string>)
      requires forall h :: h in t0 ==> h in d0 && d0[h] == t0[h].date
      requires forall h :: h in d0 ==> h in t0
      requires tokens == map h | h in t0 && h !in removed :: t0[h]
      modifies this`tokens
      ensures removed' == if x in d0 && x !in removed && Expired(now - d0[x]) then removed + [x] else removed
      ensures tokens == map h | h in t0 && h !in removed' :: t0[h]
    {
      removed' := removed;
      if x in tokens {
        var token := tokens[x];
        if MinutesComponent(now - token.date) >= 1 {
          tokens := tokens - {x};
          removed' := removed + [x];
        }
      }
    }
  }
}
