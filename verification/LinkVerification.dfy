/** Discord link codes: printing, reading and claiming them (app/features/game_link/verification.py). */
module LinkVerification {
  import opened Basics
  import opened Bits

  type Byte = n: nat | n < 256

  const ALPHABET: string := "0123456789ABCDEFGHJKMNPQRSTVWXYZ"
  const CODE_BYTES: nat := 5
  const PREFIX: string := "DUCK"

  // ---- The alphabet ----

  /** The symbol of a five-bit group: digits, then letters without I, L, O and U. */
  function Symbol(d: nat): char
    requires d < 32
  {
    if d < 10 then '0' + d as char
    else if d < 18 then 'A' + (d - 10) as char
    else if d < 20 then 'J' + (d - 18) as char
    else if d < 22 then 'M' + (d - 20) as char
    else if d < 27 then 'P' + (d - 22) as char
    else 'V' + (d - 27) as char
  }

  lemma SymbolsSpellTheAlphabet()
    ensures |ALPHABET| == 32 && forall d :: 0 <= d < 32 ==> Symbol(d) == ALPHABET[d]
  {
  }

  lemma SymbolInjective(d: nat, e: nat)
    requires d < 32 && e < 32 && Symbol(d) == Symbol(e)
    ensures d == e
  {
  }

  // ---- `_b32` ----

  /** `int.from_bytes(data, "big")` */
  function FromBytes(data: seq<Byte>): nat {
    if |data| == 0 then 0 else FromBytes(data[..|data| - 1]) * 256 + data[|data| - 1]
  }

  type Group = n: nat | n < 32

  /** The five bits at a shift; a negative shift pads with zeros on the right. */
  function GroupAt(bits: nat, shift: int): Group {
    if shift >= 0 then (bits / Pow2(shift)) % 32 else (bits * Pow2(-shift)) % 32
  }

  /** The number of symbols that n bytes take. */
  function Length(n: nat): nat {
    (8 * n + 4) / 5
  }

  /** The first k groups of a number of `width` bits, from the top. */
  function Groups(bits: nat, width: nat, k: nat): seq<Group> {
    seq(k, i => GroupAt(bits, width - 5 - 5 * i))
  }

  function Spell(groups: seq<Group>): string {
    seq(|groups|, i requires 0 <= i < |groups| => Symbol(groups[i]))
  }

  function Encode(data: seq<Byte>): string {
    Spell(Groups(FromBytes(data), 8 * |data|, Length(|data|)))
  }

  /** The loop over shifts. */
  method B32(data: seq<Byte>) returns (out: string)
    ensures out == Encode(data)
  {
    SymbolsSpellTheAlphabet();
    var bits := FromBytes(data);
    var width := |data| * 8;
    out := "";
    var shift := width - 5;
    while shift > -5
      invariant shift == width - 5 - 5 * |out| && |out| <= Length(|data|)
      invariant forall k :: 0 <= k < |out| ==> out[k] == Symbol(GroupAt(bits, width - 5 - 5 * k))
    {
      if shift >= 0 {
        out := out + [ALPHABET[(bits / Pow2(shift)) % 32]];
      } else {
        out := out + [ALPHABET[(bits * Pow2(-shift)) % 32]];
      }
      shift := shift - 5;
    }
  }

  /** The number a string of groups denotes in base 32. */
  function FromGroups(groups: seq<Group>): nat {
    if |groups| == 0 then 0 else FromGroups(groups[..|groups| - 1]) * 32 + groups[|groups| - 1]
  }

  lemma Regroup(a: nat, u: nat, v: nat, r: nat)
    ensures a * (32 * u + v) + r == (32 * a) * u + (a * v + r)
  {
    assert a * (32 * u + v) == a * (32 * u) + a * v;
    assert a * (32 * u) == (32 * a) * u;
  }

  lemma RemainderFits(a: nat, v: nat, r: nat)
    requires r < a && v < 32
    ensures 0 <= a * v + r < 32 * a
  {
    ProductSign(a, 32 - v);
    assert a * (32 - v) == 32 * a - a * v;
  }

  /** Dropping n + 5 low bits is dropping n and then five more. */
  lemma DropFiveMore(x: nat, a: nat)
    requires a > 0
    ensures x / (32 * a) == (x / a) / 32
  {
    var q, r := x / a, x % a;
    var u, v := q / 32, q % 32;
    Regroup(a, u, v, r);
    RemainderFits(a, v, r);
    QuotientUnique(x, 32 * a, u, a * v + r);
  }

  lemma GroupsSnoc(bits: nat, width: nat, k: nat)
    requires k > 0
    ensures FromGroups(Groups(bits, width, k))
            == FromGroups(Groups(bits, width, k - 1)) * 32 + GroupAt(bits, width - 5 * k)
  {
    assert Groups(bits, width, k)[..k - 1] == Groups(bits, width, k - 1);
  }

  /** The first k groups denote the bits above the (8n - 5k)-th. */
  lemma {:induction false} GroupsArePrefix(bits: nat, width: nat, k: nat)
    requires 5 * k <= width && bits < Pow2(width)
    ensures FromGroups(Groups(bits, width, k)) == bits / Pow2(width - 5 * k)
  {
    if k > 0 {
      var s := width - 5 * k;
      GroupsArePrefix(bits, width, k - 1);
      GroupsSnoc(bits, width, k);
      Pow2Five(s);
      DropFiveMore(bits, Pow2(s));
    } else {
      QuotientUnique(bits, Pow2(width), 0, bits);
    }
  }

  lemma PadExact(bits: nat, s: nat)
    requires 1 <= s <= 4
    ensures (bits / Pow2(s)) * 32 + (bits * Pow2(5 - s)) % 32 == bits * Pow2(5 - s)
  {
    var q, r := bits / Pow2(s), bits % Pow2(s);
    assert Pow2(1) == 2 && Pow2(2) == 4 && Pow2(3) == 8 && Pow2(4) == 16;
    QuotientUnique(bits * Pow2(5 - s), 32, q, r * Pow2(5 - s));
  }

  /** All the groups denote the bytes, shifted left by the zero padding. */
  lemma EncodeDenotes(bits: nat, n: nat)
    requires bits < Pow2(8 * n)
    ensures 0 <= 5 * Length(n) - 8 * n <= 4
    ensures FromGroups(Groups(bits, 8 * n, Length(n))) == bits * Pow2(5 * Length(n) - 8 * n)
  {
    var width, k := 8 * n, Length(n);
    if 5 * k == width {
      GroupsArePrefix(bits, width, k);
    } else {
      var s := width - 5 * (k - 1);
      GroupsArePrefix(bits, width, k - 1);
      GroupsSnoc(bits, width, k);
      PadExact(bits, s);
    }
  }

  lemma {:induction false} FromBytesBound(data: seq<Byte>)
    ensures FromBytes(data) < Pow2(8 * |data|)
  {
    if |data| > 0 {
      var n := |data| - 1;
      FromBytesBound(data[..n]);
      Pow2Five(8 * n);
      assert Pow2(8 * n + 8) == 8 * Pow2(8 * n + 5) by {
        assert Pow2(8 * n + 6) == 2 * Pow2(8 * n + 5) && Pow2(8 * n + 7) == 2 * Pow2(8 * n + 6);
      }
    }
  }

  lemma LastByte(x: nat, d: Byte, y: nat, e: Byte)
    requires x * 256 + d == y * 256 + e
    ensures x == y && d == e
  {
  }

  lemma {:induction false} FromBytesInjective(a: seq<Byte>, b: seq<Byte>)
    requires |a| == |b| && FromBytes(a) == FromBytes(b)
    ensures a == b
  {
    if |a| > 0 {
      var n := |a| - 1;
      LastByte(FromBytes(a[..n]), a[n], FromBytes(b[..n]), b[n]);
      FromBytesInjective(a[..n], b[..n]);
      assert a == a[..n] + [a[n]] && b == b[..n] + [b[n]];
    }
  }

  lemma TimesInjective(x: nat, y: nat, p: nat)
    requires p > 0 && x * p == y * p
    ensures x == y
  {
    ProductSign(p, x - y);
    assert p * (x - y) == 0;
  }

  lemma SpellInjective(g: seq<Group>, h: seq<Group>)
    requires Spell(g) == Spell(h)
    ensures g == h
  {
    assert |Spell(g)| == |Spell(h)|;
    forall i | 0 <= i < |g|
      ensures g[i] == h[i]
    {
      assert Spell(g)[i] == Spell(h)[i];
      SymbolInjective(g[i], h[i]);
    }
  }

  /** The packer is injective on byte strings of one length: no two digests print alike. */
  lemma EncodeInjective(a: seq<Byte>, b: seq<Byte>)
    requires |a| == |b| && Encode(a) == Encode(b)
    ensures a == b
  {
    FromBytesBound(a);
    FromBytesBound(b);
    EncodeDenotes(FromBytes(a), |a|);
    EncodeDenotes(FromBytes(b), |a|);
    SpellInjective(Groups(FromBytes(a), 8 * |a|, Length(|a|)), Groups(FromBytes(b), 8 * |a|, Length(|a|)));
    TimesInjective(FromBytes(a), FromBytes(b), Pow2(5 * Length(|a|) - 8 * |a|));
    FromBytesInjective(a, b);
  }

  // ---- Printing and reading a code, on ASCII text ----

  type AsciiChar = c: char | c < '\U{80}'

  type Text = seq<AsciiChar>

  function Upper(c: AsciiChar): AsciiChar {
    if 'a' <= c <= 'z' then c - 32 as char else c
  }

  predicate IsAlnum(c: AsciiChar) {
    '0' <= c <= '9' || 'A' <= c <= 'Z' || 'a' <= c <= 'z'
  }

  function CleanChar(c: AsciiChar): Text {
    if IsAlnum(Upper(c)) then [Upper(c)] else []
  }

  function Join(f: AsciiChar -> Text, s: Text): Text {
    if |s| == 0 then [] else f(s[0]) + Join(f, s[1..])
  }

  /** `"".join(ch for ch in raw.upper() if ch.isalnum())` */
  function Clean(raw: Text): Text {
    Join(CleanChar, raw)
  }

  function FoldChar(c: AsciiChar): AsciiChar {
    if c == 'O' then '0' else if c == 'I' || c == 'L' then '1' else if c == 'U' then 'V' else c
  }

  function Fold(s: Text): Text {
    if |s| == 0 then [] else [FoldChar(s[0])] + Fold(s[1..])
  }

  /** The prefix goes before folding, which would turn its U into a V. */
  function StripPrefix(s: Text): Text {
    if PREFIX <= s then s[|PREFIX|..] else s
  }

  /** `normalize_code` */
  function Normalize(raw: Text): Text {
    Fold(StripPrefix(Clean(raw)))
  }

  /** `link_code` from its eight-symbol core. */
  function PrintCode(core: Text): Text
    requires |core| >= 4
  {
    PREFIX + "-" + core[..4] + "-" + core[4..]
  }

  predicate Folded(s: Text) {
    forall i :: 0 <= i < |s| ==> IsAlnum(s[i]) && Upper(s[i]) == s[i] && FoldChar(s[i]) == s[i]
  }

  lemma {:induction false} CleanIsUpper(raw: Text)
    ensures forall i :: 0 <= i < |Clean(raw)| ==> IsAlnum(Clean(raw)[i]) && Upper(Clean(raw)[i]) == Clean(raw)[i]
  {
    if |raw| > 0 {
      CleanIsUpper(raw[1..]);
      assert Clean(raw) == CleanChar(raw[0]) + Clean(raw[1..]);
    }
  }

  lemma {:induction false} FoldIsFolded(s: Text)
    requires forall i :: 0 <= i < |s| ==> IsAlnum(s[i]) && Upper(s[i]) == s[i]
    ensures Folded(Fold(s)) && |Fold(s)| == |s|
  {
    if |s| > 0 {
      FoldIsFolded(s[1..]);
    }
  }

  lemma {:induction false} FoldedIsFixed(s: Text)
    requires Folded(s)
    ensures Clean(s) == s && Fold(s) == s
  {
    if |s| > 0 {
      FoldedIsFixed(s[1..]);
      assert s == [s[0]] + s[1..];
    }
  }

  lemma FoldedHasNoPrefix(s: Text)
    requires Folded(s)
    ensures !(PREFIX <= s)
  {
    if |s| > 1 {
      assert FoldChar(s[1]) == s[1] != 'U';
    }
  }

  /** Reading is idempotent. */
  lemma NormalizeIdempotent(raw: Text)
    ensures Normalize(Normalize(raw)) == Normalize(raw)
  {
    CleanIsUpper(raw);
    FoldIsFolded(StripPrefix(Clean(raw)));
    FoldedIsFixed(Normalize(raw));
    FoldedHasNoPrefix(Normalize(raw));
  }

  lemma TailOfConcat(a: Text, b: Text)
    requires |a| > 0
    ensures (a + b)[0] == a[0] && (a + b)[1..] == a[1..] + b
  {
  }

  lemma Associates(a: Text, b: Text, c: Text)
    ensures a + (b + c) == (a + b) + c
  {
  }

  lemma {:induction false} JoinConcat(f: AsciiChar -> Text, a: Text, b: Text)
    ensures Join(f, a + b) == Join(f, a) + Join(f, b)
  {
    if |a| == 0 {
      assert a + b == b;
    } else {
      JoinConcat(f, a[1..], b);
      TailOfConcat(a, b);
      Associates(f(a[0]), Join(f, a[1..]), Join(f, b));
    }
  }

  /**
   * Reading recovers the core from anything that spells the code, in any case and with any separators,
   * with or without the prefix.
   */
  lemma NormalizeRecovers(raw: Text, core: Text)
    requires Folded(core) && (Clean(raw) == PREFIX + core || Clean(raw) == core)
    ensures Normalize(raw) == core
  {
    FoldedIsFixed(core);
    FoldedHasNoPrefix(core);
    if Clean(raw) == PREFIX + core {
      assert (PREFIX + core)[|PREFIX|..] == core;
    }
  }

  /** O reads as 0, I and L as 1, U as V, and every other character as itself. */
  lemma LookAlikes(c: AsciiChar)
    ensures FoldChar('O') == '0' && FoldChar('I') == '1' && FoldChar('L') == '1' && FoldChar('U') == 'V'
    ensures c != 'O' && c != 'I' && c != 'L' && c != 'U' ==> FoldChar(c) == c
  {
  }

  /** What a code typed as one character reads as: letters and digits in upper case, folded; nothing else. */
  lemma OneCharacterReads(c: AsciiChar)
    ensures Normalize([c]) ==
            if c == 'o' || c == 'O' then "0"
            else if c == 'i' || c == 'I' || c == 'l' || c == 'L' then "1"
            else if c == 'u' || c == 'U' then "V"
            else if 'a' <= c <= 'z' then [c - 32 as char]
            else if '0' <= c <= '9' || 'A' <= c <= 'Z' then [c]
            else ""
  {
    assert [c][1..] == [];
    assert Clean([c]) == CleanChar(c) + Clean([]);
    FoldEach(Clean([c]));
  }

  /** DUCK-XXXX-XXXX */
  lemma PrintedShape(core: Text)
    requires |core| == 8
    ensures var code := PrintCode(core);
            |code| == 14 && code[..5] == "DUCK-" && code[5..9] == core[..4] && code[9] == '-' && code[10..] == core[4..]
  {
  }

  lemma {:induction false} FoldEach(s: Text)
    ensures |Fold(s)| == |s| && forall i :: 0 <= i < |s| ==> Fold(s)[i] == FoldChar(s[i])
  {
    if |s| > 0 {
      FoldEach(s[1..]);
    }
  }

  /**
   * A core typed with look-alike letters is recovered after the prefix, and without it exactly when the letters
   * typed do not themselves begin with the prefix.
   */
  lemma LookAlikesRecover(raw: Text, typed: Text, core: Text)
    requires Fold(typed) == core
    ensures Clean(raw) == PREFIX + typed ==> Normalize(raw) == core
    ensures Clean(raw) == typed ==> (Normalize(raw) == core <==> !(PREFIX <= typed))
  {
    assert (PREFIX + typed)[|PREFIX|..] == typed;
    FoldEach(typed);
    if PREFIX <= typed {
      FoldEach(typed[|PREFIX|..]);
    }
  }

  /** The prefix as the folding leaves it. */
  const FOLDED_PREFIX: string := "DVCK"

  /** That can only happen to a core that begins with the folded prefix. */
  lemma PrefixFolds(typed: Text)
    requires PREFIX <= typed
    ensures FOLDED_PREFIX <= Fold(typed)
  {
    FoldEach(typed);
    assert typed[0] == PREFIX[0] && typed[1] == PREFIX[1] && typed[2] == PREFIX[2] && typed[3] == PREFIX[3];
    assert Fold(typed)[..4] == FOLDED_PREFIX;
  }

  lemma {:induction false} CleanIsFixed(s: Text)
    requires forall i :: 0 <= i < |s| ==> IsAlnum(s[i]) && Upper(s[i]) == s[i]
    ensures Clean(s) == s
  {
    if |s| > 0 {
      CleanIsFixed(s[1..]);
      assert Clean(s) == CleanChar(s[0]) + Clean(s[1..]);
      assert s == [s[0]] + s[1..];
    }
  }

  /** And it does happen to every such core, when its V is typed as the U of the prefix. */
  lemma PrefixTypedForCore(core: Text)
    requires Folded(core) && FOLDED_PREFIX <= core
    ensures var raw := PREFIX + core[|PREFIX|..];
            Clean(raw) == raw && Fold(raw) == core && Normalize(raw) == core[|PREFIX|..] != core
  {
    var rest := core[|PREFIX|..];
    var raw := PREFIX + rest;
    CleanIsFixed(raw);
    FoldEach(raw);
    FoldedIsFixed(rest);
    assert raw[|PREFIX|..] == rest;
    assert core == FOLDED_PREFIX + rest;
    assert Fold(raw) == core;
  }

  /** So every look-alike spelling without the prefix recovers a core exactly when it does not begin with DVCK. */
  lemma LookAlikesRecoverIff(core: Text)
    requires Folded(core)
    ensures (forall raw: Text :: Fold(Clean(raw)) == core ==> Normalize(raw) == core) <==> !(FOLDED_PREFIX <= core)
  {
    if FOLDED_PREFIX <= core {
      PrefixTypedForCore(core);
      var raw := PREFIX + core[|PREFIX|..];
      assert Fold(Clean(raw)) == core;
    } else {
      forall raw: Text | Fold(Clean(raw)) == core
        ensures Normalize(raw) == core
      {
        LookAlikesRecover(raw, Clean(raw), core);
        if PREFIX <= Clean(raw) {
          PrefixFolds(Clean(raw));
        }
      }
    }
  }

  lemma CleanDash(a: Text)
    ensures Clean(a + "-") == Clean(a)
  {
    var dash: Text := "-";
    assert dash[1..] == [];
    JoinConcat(CleanChar, a, dash);
  }

  /** In particular from the printed code. */
  lemma NormalizePrinted(core: Text)
    requires Folded(core) && |core| >= 4
    ensures Clean(PrintCode(core)) == PREFIX + core && Normalize(PrintCode(core)) == core
  {
    FoldedIsFixed(core[..4]);
    FoldedIsFixed(core[4..]);
    PrefixIsClean();
    CleanParts(PREFIX, core[..4], core[4..]);
    assert core == core[..4] + core[4..];
    NormalizeRecovers(PrintCode(core), core);
  }

  lemma CleanDashed(a: Text, b: Text)
    ensures Clean(a + "-" + b) == Clean(a) + Clean(b)
  {
    CleanDash(a);
    JoinConcat(CleanChar, a + "-", b);
  }

  lemma CleanParts(a: Text, b: Text, c: Text)
    ensures Clean(a + "-" + b + "-" + c) == Clean(a) + (Clean(b) + Clean(c))
  {
    CleanDashed(a, b);
    CleanDashed(a + "-" + b, c);
    Associates(Clean(a), Clean(b), Clean(c));
  }

  lemma PrefixIsClean()
    ensures Clean(PREFIX) == PREFIX
  {
    assert PREFIX[1..] == "UCK" && "UCK"[1..] == "CK" && "CK"[1..] == "K" && "K"[1..] == "";
  }

  /** Every encoded digest is a folded text, so it survives printing and reading. */
  lemma EncodeIsFolded(data: seq<Byte>)
    ensures forall c :: c in Encode(data) ==> c < '\U{80}'
    ensures Folded(Encode(data))
  {
  }

  // ---- Claiming ----

  datatype Player = Player(accountId: int, email: Option<string>, displayName: Option<string>)

  /** The digest of an account under the server secret: an arbitrary function to five bytes. */
  type Digest = int -> seq<Byte>

  ghost predicate FiveBytes(digest: Digest) {
    forall a :: |digest(a)| == CODE_BYTES
  }

  function Core(digest: Digest, account: int): Text {
    EncodeIsFolded(digest(account));
    Encode(digest(account))
  }

  function LinkCode(digest: Digest, account: int): Text
    requires |digest(account)| == CODE_BYTES
  {
    PrintCode(Core(digest, account))
  }

  /** `find_player_by_link_code`: the first player whose recomputed code is the one claimed. */
  method FindPlayerByLinkCode(digest: Digest, players: seq<Player>, code: Text) returns (found: Option<nat>)
    ensures found.Some? ==>
              && found.value < |players| && |Normalize(code)| == 8
              && Core(digest, players[found.value].accountId) == Normalize(code)
              && forall i :: 0 <= i < found.value ==> Core(digest, players[i].accountId) != Normalize(code)
    ensures found.None? ==>
              |Normalize(code)| != 8
              || forall i :: 0 <= i < |players| ==> Core(digest, players[i].accountId) != Normalize(code)
    ensures found == FirstWithCore(digest, players, Normalize(code), 0)
  {
    var core := Normalize(code);
    if |core| != CODE_BYTES * 8 / 5 {
      assert FirstWithCore(digest, players, core, 0) == None;
      return None;
    }
    for i := 0 to |players|
      invariant forall k :: 0 <= k < i ==> Core(digest, players[k].accountId) != core
      invariant FirstWithCore(digest, players, core, 0) == FirstWithCore(digest, players, core, i)
    {
      if Core(digest, players[i].accountId) == core {
        return Some(i);
      }
    }
    return None;
  }

  function FirstWithCore(digest: Digest, players: seq<Player>, core: Text, from: nat): (r: Option<nat>)
    requires from <= |players|
    ensures r.Some? ==> from <= r.value < |players| && Core(digest, players[r.value].accountId) == core
    ensures forall i :: from <= i < |players| && |core| == 8 && Core(digest, players[i].accountId) == core ==>
              r.Some? && r.value <= i
    decreases |players| - from
  {
    if |core| != 8 || from == |players| then None
    else if Core(digest, players[from].accountId) == core then Some(from)
    else FirstWithCore(digest, players, core, from + 1)
  }

  /**
   * Claiming a printed code finds the issuing player exactly when no earlier player has the same core; in
   * any case it finds someone with that core.
   */
  lemma ClaimFindsIssuer(digest: Digest, players: seq<Player>, k: nat, code: Text)
    requires FiveBytes(digest) && k < |players|
    requires Clean(code) == PREFIX + Core(digest, players[k].accountId)
    ensures var found := FirstWithCore(digest, players, Normalize(code), 0);
            && found.Some? && found.value <= k
            && (found == Some(k) <==>
                forall i :: 0 <= i < k ==> Core(digest, players[i].accountId) != Core(digest, players[k].accountId))
  {
    var core := Core(digest, players[k].accountId);
    EncodeIsFolded(digest(players[k].accountId));
    NormalizeRecovers(code, core);
    FirstWithOwnCore(digest, players, k, core);
  }

  lemma FirstWithOwnCore(digest: Digest, players: seq<Player>, k: nat, core: Text)
    requires k < |players| && |core| == 8 && Core(digest, players[k].accountId) == core
    ensures var found := FirstWithCore(digest, players, core, 0);
            && found.Some? && found.value <= k
            && (found == Some(k) <==> forall i :: 0 <= i < k ==> Core(digest, players[i].accountId) != core)
  {
  }

  /** With distinct digests the code of an account binds that account and no other. */
  lemma DistinctDigestsBindIssuer(digest: Digest, players: seq<Player>, k: nat, code: Text)
    requires FiveBytes(digest) && k < |players|
    requires Clean(code) == PREFIX + Core(digest, players[k].accountId)
    requires forall i, j :: 0 <= i < j < |players| ==> digest(players[i].accountId) != digest(players[j].accountId)
    ensures FirstWithCore(digest, players, Normalize(code), 0) == Some(k)
  {
    forall i | 0 <= i < k
      ensures Core(digest, players[i].accountId) != Core(digest, players[k].accountId)
    {
      if Core(digest, players[i].accountId) == Core(digest, players[k].accountId) {
        EncodeInjective(digest(players[i].accountId), digest(players[k].accountId));
      }
    }
    ClaimFindsIssuer(digest, players, k, code);
  }
}
