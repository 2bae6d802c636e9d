/** The admission proof: the client's search for a nonce and the server's check of it. */
module Proof {
  import opened Wrappers
  import opened Bytes
  import opened Decimals
  import Base64Url
  import Packet
  import Sealing

  const MAX_SAFE_INTEGER: nat := 9007199254740991

  // ---- Leading zero bits --------------------------------------------------------------------

  function Pow2(n: nat): (p: nat)
    ensures p > 0
  {
    if n == 0 then 1 else 2 * Pow2(n - 1)
  }

  // A digest read as a big-endian number.
  function Number(d: seq<byte>): nat {
    if d == [] then 0 else d[0] * Pow2(8 * (|d| - 1)) + Number(d[1..])
  }

  // The test both sides make: whole zero bytes, then the top bits of the next one.
  predicate LeadingZeros(d: seq<byte>, bits: nat)
    requires bits < 8 * |d|
  {
    && (forall i :: 0 <= i < bits / 8 ==> d[i] == 0)
    && (bits % 8 == 0 || d[bits / 8] / Pow2(8 - bits % 8) == 0)
  }

  lemma {:induction false} Pow2Sum(m: nat, n: nat)
    ensures Pow2(m + n) == Pow2(m) * Pow2(n)
  {
    if m > 0 {
      Pow2Sum(m - 1, n);
      assert Pow2(m + n) == 2 * Pow2(m - 1 + n);
      assert 2 * (Pow2(m - 1) * Pow2(n)) == (2 * Pow2(m - 1)) * Pow2(n);
    }
  }

  lemma Pow2Monotone(m: nat, n: nat)
    requires m <= n
    ensures Pow2(m) <= Pow2(n)
  {
    Pow2Sum(m, n - m);
    assert Pow2(m) * Pow2(n - m) >= Pow2(m) * 1;
  }

  lemma TopDigit(d: nat, p: nat, rest: nat, k: nat)
    requires rest < p
    ensures d * p + rest < k * p <==> d < k
  {
    if d < k {
      assert (d + 1) * p <= k * p;
    } else {
      assert d * p >= k * p;
    }
  }

  lemma {:induction false} NumberBound(d: seq<byte>)
    ensures Number(d) < Pow2(8 * |d|)
  {
    if d != [] {
      var p := Pow2(8 * (|d| - 1));
      NumberBound(d[1..]);
      Pow2Sum(8, 8 * (|d| - 1));
      assert Pow2(8) == 256 by { EightBits(); }
      TopDigit(d[0], p, Number(d[1..]), 256);
    }
  }

  lemma EightBits()
    ensures Pow2(8) == 256
  {
    assert Pow2(4) == 16;
  }

  // Fewer than eight bits are a matter of the first byte.
  lemma FirstByteBound(d: seq<byte>, bits: nat)
    requires bits < 8 && d != []
    ensures LeadingZeros(d, bits) <==> Number(d) < Pow2(8 * |d| - bits)
  {
    var n := |d|;
    NumberBound(d[1..]);
    Pow2Sum(8 - bits, 8 * (n - 1));
    TopDigit(d[0], Pow2(8 * (n - 1)), Number(d[1..]), Pow2(8 - bits));
    if bits == 0 {
      EightBits();
    } else {
      QuotientZero(d[0], Pow2(8 - bits));
    }
  }

  /** The bit test is a comparison: the digest is below 2^(8n - bits). */
  lemma {:induction false} LeadingZerosIsBound(d: seq<byte>, bits: nat)
    requires bits < 8 * |d|
    ensures LeadingZeros(d, bits) <==> Number(d) < Pow2(8 * |d| - bits)
    decreases |d|
  {
    if bits < 8 {
      FirstByteBound(d, bits);
    } else {
      LeadingZerosIsBound(d[1..], bits - 8);
      ShiftZeros(d, bits);
      SameBound(d, 8 * |d| - bits);
    }
  }

  // Below a power that the later bytes alone reach, the first byte is zero.
  lemma SameBound(d: seq<byte>, e: nat)
    requires d != [] && e <= 8 * (|d| - 1)
    ensures Number(d) < Pow2(e) <==> d[0] == 0 && Number(d[1..]) < Pow2(e)
  {
    var p, rest := Pow2(8 * (|d| - 1)), Number(d[1..]);
    NumberBound(d[1..]);
    Pow2Monotone(e, 8 * (|d| - 1));
    assert Number(d) == d[0] * p + rest;
    hide Pow2, Number;
    TopOnly(d[0], p, rest, Pow2(e));
  }

  lemma TopOnly(d: nat, p: nat, rest: nat, bound: nat)
    requires rest < p && bound <= p
    ensures d * p + rest < bound <==> d == 0 && rest < bound
  {
    if d > 0 {
      assert d * p >= 1 * p;
    } else {
      assert d * p == 0;
    }
  }

  lemma QuotientZero(d: nat, k: nat)
    requires k > 0
    ensures d / k == 0 <==> d < k
  {
    if d / k == 0 {
      assert d == d / k * k + d % k;
    }
  }

  lemma ShiftZeros(d: seq<byte>, bits: nat)
    requires 8 <= bits < 8 * |d|
    ensures LeadingZeros(d, bits) <==> d[0] == 0 && LeadingZeros(d[1..], bits - 8)
  {
    assert (bits - 8) / 8 == bits / 8 - 1 && (bits - 8) % 8 == bits % 8;
    assert forall i :: 1 <= i < |d| ==> d[i] == d[1..][i - 1];
  }

  // ---- Messages and nonces --------------------------------------------------------------------

  // shared/index.ts solveProof: the prefix is built once and each nonce is appended to it.
  function Prefix(p: Sealing.Primitives, challenge: string, packet: seq<byte>): string {
    challenge + "." + Sealing.Hash(p, packet) + "."
  }

  function ClientMessage(p: Sealing.Primitives, challenge: string, packet: seq<byte>, nonce: nat): (m: string)
    requires Packet.IsAscii(challenge)
    ensures Packet.IsAscii(m)
  {
    HexIsAscii(p.sha256(packet));
    Prefix(p, challenge, packet) + Decimal(nonce)
  }

  // server/src/protocol.rs verify_work: three pieces, formatted with points between them.
  function ServerMessage(p: Sealing.Primitives, challenge: string, nonce: string, packet: seq<byte>): (m: string)
    requires Packet.IsAscii(challenge) && AllDigits(nonce)
    ensures Packet.IsAscii(m)
  {
    HexIsAscii(p.sha256(packet));
    challenge + ("." + (Sealing.Hash(p, packet) + ("." + nonce)))
  }

  lemma HexIsAscii(b: seq<byte>)
    ensures Packet.IsAscii(Sealing.Hex(b))
  {
  }

  function ClientDigest(p: Sealing.Primitives, challenge: string, packet: seq<byte>, nonce: nat): seq<byte>
    requires Packet.IsAscii(challenge)
  {
    p.sha256(Packet.AsciiBytes(ClientMessage(p, challenge, packet, nonce)))
  }

  function ServerDigest(p: Sealing.Primitives, challenge: string, nonce: string, packet: seq<byte>): seq<byte>
    requires Packet.IsAscii(challenge) && AllDigits(nonce)
  {
    p.sha256(Packet.AsciiBytes(ServerMessage(p, challenge, nonce, packet)))
  }

  /** Prefix and nonce on the client are the text that the server formats. */
  lemma MessagesAgree(p: Sealing.Primitives, challenge: string, packet: seq<byte>, nonce: nat)
    requires Packet.IsAscii(challenge)
    ensures ServerMessage(p, challenge, Decimal(nonce), packet) == ClientMessage(p, challenge, packet, nonce)
    ensures ServerDigest(p, challenge, Decimal(nonce), packet) == ClientDigest(p, challenge, packet, nonce)
  {
    hide Sealing.Hash, Decimal;
  }

  // The message, piece by piece.
  lemma MessageLayout(p: Sealing.Primitives, challenge: string, packet: seq<byte>, nonce: nat)
    requires Sealing.LawfulPrimitives(p) && Packet.IsAscii(challenge)
    ensures var m, n := ClientMessage(p, challenge, packet, nonce), |challenge|;
            && |m| > n + 66 && m[..n] == challenge && m[n] == '.'
            && m[n + 1..n + 65] == Sealing.Hex(p.sha256(packet)) && m[n + 65] == '.' && m[n + 66..] == Decimal(nonce)
  {
    hide Decimal, Sealing.Hex;
    var hash := Sealing.Hash(p, packet);
    var m, n := ClientMessage(p, challenge, packet, nonce), |challenge|;
    assert m == challenge + "." + hash + "." + Decimal(nonce);
    assert m[n + 1..n + 65] == hash;
  }

  lemma MessageEnd(p: Sealing.Primitives, challenge: string, packet: seq<byte>, nonce: nat)
    requires Sealing.LawfulPrimitives(p) && Packet.IsAscii(challenge)
    ensures var m := ClientMessage(p, challenge, packet, nonce);
            && LastPoint(m) == |challenge| + 65
  {
    hide Decimal, ClientMessage;
    MessageLayout(p, challenge, packet, nonce);
    var m := ClientMessage(p, challenge, packet, nonce);
    assert AllDigits(m[|challenge| + 66..]);
    LastPointIs(m, |challenge| + 65);
  }

  function LastPoint(m: string): nat {
    if m == [] then 0 else if m[|m| - 1] == '.' then |m| - 1 else LastPoint(m[..|m| - 1])
  }

  lemma {:induction false} LastPointIs(m: string, k: nat)
    requires k < |m| && m[k] == '.' && forall i :: k < i < |m| ==> m[i] != '.'
    ensures LastPoint(m) == k
  {
    if k < |m| - 1 {
      LastPointIs(m[..|m| - 1], k);
    }
  }

  /** A message determines the challenge, the digest of the packet and the nonce. */
  lemma MessageDetermines(p: Sealing.Primitives, c: string, packet: seq<byte>, n: nat, c': string, packet': seq<byte>, n': nat)
    requires Sealing.LawfulPrimitives(p) && Packet.IsAscii(c) && Packet.IsAscii(c')
    ensures ClientMessage(p, c, packet, n) == ClientMessage(p, c', packet', n')
       <==> c == c' && p.sha256(packet) == p.sha256(packet') && n == n'
  {
    if ClientMessage(p, c, packet, n) == ClientMessage(p, c', packet', n') {
      hide Decimal, ClientMessage, Sealing.Hex;
      MessageLayout(p, c, packet, n);
      MessageLayout(p, c', packet', n');
      MessageEnd(p, c, packet, n);
      MessageEnd(p, c', packet', n');
      Sealing.HexInjective(p.sha256(packet), p.sha256(packet'));
      ValueOfDecimal(n);
      ValueOfDecimal(n');
    }
  }

  /** Work is bound to its challenge, packet and nonce: two different triples with the same digest exhibit
      a collision of the hash. */
  lemma WorkIsBound(p: Sealing.Primitives, c: string, packet: seq<byte>, n: nat, c': string, packet': seq<byte>, n': nat)
    returns (a: seq<byte>, b: seq<byte>)
    requires Sealing.LawfulPrimitives(p) && Packet.IsAscii(c) && Packet.IsAscii(c')
    requires ClientDigest(p, c, packet, n) == ClientDigest(p, c', packet', n')
    ensures (c, packet, n) == (c', packet', n') || (a != b && p.sha256(a) == p.sha256(b))
  {
    hide ClientMessage, Packet.AsciiBytes;
    MessageDetermines(p, c, packet, n, c', packet', n');
    if ClientMessage(p, c, packet, n) == ClientMessage(p, c', packet', n') {
      a, b := packet, packet';
    } else {
      a, b := Packet.AsciiBytes(ClientMessage(p, c, packet, n)), Packet.AsciiBytes(ClientMessage(p, c', packet', n'));
      AsciiInjective(ClientMessage(p, c, packet, n), ClientMessage(p, c', packet', n'));
    }
  }

  lemma AsciiInjective(s: string, t: string)
    requires Packet.IsAscii(s) && Packet.IsAscii(t) && s != t
    ensures Packet.AsciiBytes(s) != Packet.AsciiBytes(t)
  {
    if |s| == |t| {
      var i :| 0 <= i < |s| && s[i] != t[i];
      assert Packet.AsciiBytes(s)[i] != Packet.AsciiBytes(t)[i];
    }
  }

  // server/src/protocol.rs valid_nonce; sixteen digits never overflow the u64 parse.
  predicate ValidNonce(nonce: string) {
    && nonce != [] && |nonce| <= 16 && AllDigits(nonce)
    && !(|nonce| > 1 && nonce[0] == '0')
    && Value(nonce) <= MAX_SAFE_INTEGER
  }

  /** The accepted nonces are exactly the canonical decimals of 0 to 2^53 - 1. */
  lemma ValidNonces(nonce: string)
    ensures ValidNonce(nonce) <==> exists n: nat :: n <= 9007199254740991 && nonce == Decimal(n)
  {
    if ValidNonce(nonce) {
      DecimalOfValue(nonce);
    }
    forall n: nat | n <= MAX_SAFE_INTEGER && nonce == Decimal(n) ensures ValidNonce(nonce) {
      ValueOfDecimal(n);
      SixteenDigits();
      DecimalLength(n, 16);
    }
  }

  lemma SixteenDigits()
    ensures Pow10(16) == 10000000000000000
  {
    assert Pow10(8) == 100000000;
    assert Pow10(12) == 1000000000000;
  }

  // ---- The client -----------------------------------------------------------------------------------

  datatype SolveError = InvalidPackage | InvalidChallenge | Cancelled | ProofExpired | Exhausted

  // Number.isSafeInteger
  predicate IsSafeInteger(x: real) {
    x == x.Floor as real && -(MAX_SAFE_INTEGER as int) <= x.Floor <= MAX_SAFE_INTEGER
  }

  // What the client sees around the pause at a nonce, before it and (second) after it.
  datatype Surroundings = Surroundings(aborted: (nat, bool) -> bool, clock: (nat, bool) -> int)

  function Look(around: Surroundings, expiresAt: int, nonce: nat, second: bool): Option<SolveError> {
    if around.aborted(nonce, second) then Some(Cancelled)
    else if around.clock(nonce, second) >= expiresAt * 1000 then Some(ProofExpired)
    else None
  }

  // Both looks at every 2048th nonce.
  function Stop(around: Surroundings, expiresAt: int, nonce: nat): Option<SolveError> {
    if nonce % 2048 != 0 then None
    else if Look(around, expiresAt, nonce, false).Some? then Look(around, expiresAt, nonce, false)
    else Look(around, expiresAt, nonce, true)
  }

  predicate IsChallengeChar(c: char) {
    Base64Url.IsUrlChar(c) || c == '.'
  }

  predicate IsChallenge(challenge: string) {
    1 <= |challenge| <= 512 && forall i :: 0 <= i < |challenge| ==> IsChallengeChar(challenge[i])
  }

  lemma ChallengeIsAscii(challenge: string)
    requires IsChallenge(challenge)
    ensures Packet.IsAscii(challenge)
  {
    assert forall i :: 0 <= i < |challenge| ==> IsChallengeChar(challenge[i]);
  }

  predicate Solves(p: Sealing.Primitives, challenge: string, packet: seq<byte>, bits: nat, nonce: nat)
    requires Packet.IsAscii(challenge)
  {
    var digest := ClientDigest(p, challenge, packet, nonce);
    bits < 8 * |digest| && LeadingZeros(digest, bits)
  }

  // What a search may return: the least solution; no solution at all; or the first stop, with no
  // solution before it.
  ghost predicate IsSearchResult(p: Sealing.Primitives, challenge: string, packet: seq<byte>, bits: nat,
                                 around: Surroundings, expiresAt: int, r: Result<string, SolveError>)
    requires Packet.IsAscii(challenge)
  {
    match r
    case Ok(nonce) =>
      exists n: nat :: n <= MAX_SAFE_INTEGER && nonce == Decimal(n) && Solves(p, challenge, packet, bits, n)
                       && (forall m: nat :: m < n ==> !Solves(p, challenge, packet, bits, m))
                       && (forall m: nat :: m <= n ==> Stop(around, expiresAt, m).None?)
    case Err(Exhausted) => forall m: nat :: m <= MAX_SAFE_INTEGER ==> !Solves(p, challenge, packet, bits, m)
    case Err(e) =>
      exists n: nat :: n <= MAX_SAFE_INTEGER && Stop(around, expiresAt, n) == Some(e)
                       && (forall m: nat :: m < n ==> !Solves(p, challenge, packet, bits, m))
                       && (forall m: nat :: m < n ==> Stop(around, expiresAt, m).None?)
  }

  // The inner test of solveProof, byte by byte.
  method HasLeadingZeros(digest: seq<byte>, bits: nat) returns (good: bool)
    requires bits < 8 * |digest|
    ensures good <==> LeadingZeros(digest, bits)
  {
    var zeroBytes, remainder := bits / 8, bits % 8;
    good := true;
    for i := 0 to zeroBytes
      invariant good && forall k :: 0 <= k < i ==> digest[k] == 0
    {
      if digest[i] != 0 {
        good := false;
        return;
      }
    }
    good := remainder == 0 || digest[zeroBytes] / Pow2(8 - remainder) == 0;
  }

  /** shared/index.ts solveProof. */
  method SolveProof(lib: Packet.Libraries, p: Sealing.Primitives, packet: seq<byte>, challenge: string, bits: real,
                    expiresAt: real, around: Surroundings)
    returns (r: Result<string, SolveError>)
    requires Sealing.LawfulPrimitives(p)
    ensures r == Err(InvalidPackage) <==> Packet.ParsePacket(lib, packet).None?
    ensures r == Err(InvalidChallenge) <==>
              Packet.ParsePacket(lib, packet).Some?
              && !(&& 1 <= |challenge| <= 512 && (forall c :: c in challenge ==> Base64Url.IsUrlChar(c) || c == '.')
                   && bits.Floor as real == bits && 0 <= bits.Floor <= 24
                   && expiresAt.Floor as real == expiresAt && -9007199254740991 <= expiresAt.Floor <= 9007199254740991)
    ensures r != Err(InvalidPackage) && r != Err(InvalidChallenge) ==>
              Packet.IsAscii(challenge) && IsSearchResult(p, challenge, packet, bits.Floor, around, expiresAt.Floor, r)
  {
    hide Packet.ParsePacket;
    if Packet.ParsePacket(lib, packet).None? {
      return Err(InvalidPackage);
    }
    if !IsChallenge(challenge) || !IsSafeInteger(bits) || bits < 0.0 || bits > 24.0 || !IsSafeInteger(expiresAt) {
      return Err(InvalidChallenge);
    }
    ChallengeIsAscii(challenge);
    r := Search(p, packet, challenge, bits.Floor, expiresAt.Floor, around);
  }

  method Search(p: Sealing.Primitives, packet: seq<byte>, challenge: string, bits: nat, expiresAt: int, around: Surroundings)
    returns (r: Result<string, SolveError>)
    requires Sealing.LawfulPrimitives(p) && Packet.IsAscii(challenge) && bits <= 24
    ensures r != Err(InvalidPackage) && r != Err(InvalidChallenge)
    ensures IsSearchResult(p, challenge, packet, bits, around, expiresAt, r)
  {
    hide ClientMessage;
    var prefix := challenge + "." + Sealing.Hash(p, packet) + ".";
    var nonce: nat := 0;
    while nonce <= MAX_SAFE_INTEGER
      invariant nonce <= MAX_SAFE_INTEGER + 1
      invariant forall m: nat :: m < nonce ==> !Solves(p, challenge, packet, bits, m)
      invariant forall m: nat :: m < nonce ==> Stop(around, expiresAt, m).None?
    {
      if nonce % 2048 == 0 {
        if around.aborted(nonce, false) {
          assert Stop(around, expiresAt, nonce) == Some(Cancelled);
          return Err(Cancelled);
        }
        if around.clock(nonce, false) >= expiresAt * 1000 {
          assert Stop(around, expiresAt, nonce) == Some(ProofExpired);
          return Err(ProofExpired);
        }
        if around.aborted(nonce, true) {
          assert Stop(around, expiresAt, nonce) == Some(Cancelled);
          return Err(Cancelled);
        }
        if around.clock(nonce, true) >= expiresAt * 1000 {
          assert Stop(around, expiresAt, nonce) == Some(ProofExpired);
          return Err(ProofExpired);
        }
      }
      assert Stop(around, expiresAt, nonce).None?;
      MessageIs(p, challenge, packet, nonce, prefix);
      var digest := p.sha256(Packet.AsciiBytes(prefix + Decimal(nonce)));
      var good := HasLeadingZeros(digest, bits);
      if good {
        assert Solves(p, challenge, packet, bits, nonce);
        return Ok(Decimal(nonce));
      }
      nonce := nonce + 1;
    }
    return Err(Exhausted);
  }

  lemma MessageIs(p: Sealing.Primitives, challenge: string, packet: seq<byte>, nonce: nat, prefix: string)
    requires Packet.IsAscii(challenge) && prefix == challenge + "." + Sealing.Hash(p, packet) + "."
    ensures ClientMessage(p, challenge, packet, nonce) == prefix + Decimal(nonce)
  {
  }

  // ---- The server -----------------------------------------------------------------------------------

  // server/src/protocol.rs verify_work
  predicate VerifyWork(p: Sealing.Primitives, challenge: string, nonce: string, packet: seq<byte>, bits: nat)
    requires Sealing.LawfulPrimitives(p)
  {
    if Base64Url.Base64Bytes(challenge, 32).None? || !ValidNonce(nonce) || !(1 <= bits <= 24) then false
    else
      IdentifierIsChallenge(challenge);
      LeadingZeros(ServerDigest(p, challenge, nonce, packet), bits)
  }

  lemma IdentifierIsChallenge(challenge: string)
    requires Base64Url.Base64Bytes(challenge, 32).Some?
    ensures IsChallenge(challenge) && Packet.IsAscii(challenge)
  {
    Packet.TokenIsPlain(challenge, 32);
    assert Base64Url.AllUrl(challenge);
  }

  /** A nonce the client may find is accepted by the server exactly when the challenge is one the
      server issues: an identifier, with at least one bit. */
  lemma SolutionIsAccepted(p: Sealing.Primitives, challenge: string, packet: seq<byte>, bits: nat,
                           around: Surroundings, expiresAt: int, nonce: string)
    requires Sealing.LawfulPrimitives(p) && IsChallenge(challenge) && bits <= 24 && Packet.IsAscii(challenge)
    requires IsSearchResult(p, challenge, packet, bits, around, expiresAt, Ok(nonce))
    ensures VerifyWork(p, challenge, nonce, packet, bits)
       <==> Base64Url.Base64Bytes(challenge, 32).Some? && bits >= 1
    ensures AllDigits(nonce) && Number(ServerDigest(p, challenge, nonce, packet)) < Pow2(256 - bits)
  {
    hide Base64Url.Base64Bytes, ClientDigest, ServerDigest, ValidNonce, LeadingZeros, IsChallenge, Packet.IsAscii, Decimal, AllDigits;
    var n: nat :| n <= MAX_SAFE_INTEGER && nonce == Decimal(n) && Solves(p, challenge, packet, bits, n);
    ValidNonces(nonce);
    MessagesAgree(p, challenge, packet, n);
    DigestLength(p, challenge, nonce, packet);
    LeadingZerosIsBound(ServerDigest(p, challenge, nonce, packet), bits);
  }

  lemma DigestLength(p: Sealing.Primitives, challenge: string, nonce: string, packet: seq<byte>)
    requires Sealing.LawfulPrimitives(p) && Packet.IsAscii(challenge) && AllDigits(nonce)
    ensures |ServerDigest(p, challenge, nonce, packet)| == 32
  {
  }

  /** The server accepts exactly the decimals of safe integers for which the client's message has a digest
      below 2^(256 - bits), for a challenge that is an identifier and 1 to 24 bits. */
  lemma AcceptedExactly(p: Sealing.Primitives, challenge: string, packet: seq<byte>, bits: nat, nonce: string)
    requires Sealing.LawfulPrimitives(p)
    ensures VerifyWork(p, challenge, nonce, packet, bits)
       <==> && Base64Url.Base64Bytes(challenge, 32).Some? && Packet.IsAscii(challenge) && 1 <= bits <= 24
            && exists n: nat :: n <= 9007199254740991 && nonce == Decimal(n)
                 && Number(p.sha256(Packet.AsciiBytes(ClientMessage(p, challenge, packet, n)))) < Pow2(256 - bits)
  {
    hide Base64Url.Base64Bytes, ServerDigest, ClientMessage, LeadingZeros, Packet.AsciiBytes, Decimal, AllDigits, Pow2, Number;
    if Base64Url.Base64Bytes(challenge, 32).Some? && ValidNonce(nonce) && 1 <= bits <= 24 {
      IdentifierIsChallenge(challenge);
      DigestLength(p, challenge, nonce, packet);
      LeadingZerosIsBound(ServerDigest(p, challenge, nonce, packet), bits);
    }
    ValidNonces(nonce);
    forall n: nat | nonce == Decimal(n) && Packet.IsAscii(challenge)
      ensures ServerDigest(p, challenge, nonce, packet) == p.sha256(Packet.AsciiBytes(ClientMessage(p, challenge, packet, n)))
    {
      MessagesAgree(p, challenge, packet, n);
    }
  }

  /** A search that ends with a nonce looked twice at every 2048th nonce before it and found the challenge
      alive; one that is cancelled or expires does so at a 2048th nonce. */
  lemma SearchReasons(p: Sealing.Primitives, challenge: string, packet: seq<byte>, bits: nat, around: Surroundings,
                      expiresAt: int, r: Result<string, SolveError>)
    requires Packet.IsAscii(challenge) && IsSearchResult(p, challenge, packet, bits, around, expiresAt, r)
    ensures r.Ok? ==>
              forall m: nat, second: bool :: m <= Value(r.value) && m % 2048 == 0 ==>
                !around.aborted(m, second) && around.clock(m, second) < 1000 * expiresAt
    ensures r == Err(Cancelled) ==>
              exists m: nat, second: bool :: m % 2048 == 0 && around.aborted(m, second)
                && (second ==> !around.aborted(m, false) && around.clock(m, false) < 1000 * expiresAt)
    ensures r == Err(ProofExpired) ==>
              exists m: nat, second: bool :: m % 2048 == 0 && !around.aborted(m, second) && around.clock(m, second) >= 1000 * expiresAt
                && (second ==> !around.aborted(m, false) && around.clock(m, false) < 1000 * expiresAt)
  {
    hide Solves;
    if r.Ok? {
      var n: nat :| r.value == Decimal(n) && (forall m: nat :: m <= n ==> Stop(around, expiresAt, m).None?);
      ValueOfDecimal(n);
      forall m: nat, second: bool | m <= n && m % 2048 == 0
        ensures !around.aborted(m, second) && around.clock(m, second) < 1000 * expiresAt
      {
        assert Stop(around, expiresAt, m).None?;
      }
    } else if r == Err(Cancelled) || r == Err(ProofExpired) {
      var e := r.error;
      var n: nat :| Stop(around, expiresAt, n) == Some(e);
      assert Stop(around, expiresAt, n).Some?;
      assert n % 2048 == 0;
      var second := Look(around, expiresAt, n, false).None?;
      assert Look(around, expiresAt, n, second) == Some(r.error);
      assert r == Err(Cancelled) ==> around.aborted(n, second);
      assert r == Err(ProofExpired) ==> !around.aborted(n, second);
    }
  }
}
