/** Player identity and Discord links (app/features/game_link/service.py). */
module GameLinkService {
  import opened Basics
  import opened LinkVerification

  /** One player per portal account. */
  ghost predicate OnePerAccount(players: seq<Player>) {
    forall i, j :: 0 <= i < j < |players| ==> players[i].accountId != players[j].accountId
  }

  function PlayerByAccount(players: seq<Player>, account: int): (r: Option<nat>)
    ensures r.Some? ==> r.value < |players| && players[r.value].accountId == account
    ensures r.None? ==> forall i :: 0 <= i < |players| ==> players[i].accountId != account
  {
    if |players| == 0 then None
    else
      var earlier := PlayerByAccount(players[..|players| - 1], account);
      if earlier.Some? then earlier
      else if players[|players| - 1].accountId == account then Some(|players| - 1) else None
  }

  // ---- `_clean_email`, on ASCII text ----

  predicate IsBlank(c: char) {
    c == ' ' || '\t' <= c <= '\r' || '\U{1c}' <= c <= '\U{1f}'
  }

  function TrimLeft(s: Text): Text {
    if |s| > 0 && IsBlank(s[0]) then TrimLeft(s[1..]) else s
  }

  function TrimRight(s: Text): Text {
    if |s| > 0 && IsBlank(s[|s| - 1]) then TrimRight(s[..|s| - 1]) else s
  }

  function LowerAll(s: Text): Text {
    if |s| == 0 then [] else [LowerOf(s[0])] + LowerAll(s[1..])
  }

  function CleanEmail(email: Option<Text>): Option<string> {
    if email.None? || email.value == "" then None else Some(LowerAll(TrimRight(TrimLeft(email.value))))
  }

  lemma {:induction false} TrimmedEnds(s: Text)
    ensures |TrimLeft(s)| > 0 ==> !IsBlank(TrimLeft(s)[0])
    ensures |TrimRight(s)| > 0 ==> !IsBlank(TrimRight(s)[|TrimRight(s)| - 1])
    ensures TrimRight(s) <= s
  {
    if |s| > 0 {
      TrimmedEnds(s[1..]);
      TrimmedEnds(s[..|s| - 1]);
    }
  }

  lemma {:induction false} LoweredEach(s: Text)
    ensures |LowerAll(s)| == |s|
    ensures forall i :: 0 <= i < |s| ==> !('A' <= LowerAll(s)[i] <= 'Z') && (IsBlank(LowerAll(s)[i]) <==> IsBlank(s[i]))
  {
    if |s| > 0 {
      LoweredEach(s[1..]);
    }
  }

  lemma {:induction false} LoweredIsFixed(s: Text)
    requires forall i :: 0 <= i < |s| ==> !('A' <= s[i] <= 'Z')
    ensures LowerAll(s) == s
  {
    if |s| > 0 {
      LoweredIsFixed(s[1..]);
      assert s == [s[0]] + s[1..];
    }
  }

  /** An email is cleaned of the blanks at its ends and of upper-case letters, and of nothing else. */
  lemma CleanEmailTrims(email: Text) returns (i: nat, j: nat)
    requires email != ""
    ensures CleanEmail(Some(email)).Some? && CleanEmail(None).None? && CleanEmail(Some("")).None?
    ensures i <= j <= |email| && TrimmedTo(email, i, j)
    ensures |CleanEmail(Some(email)).value| == j - i
    ensures forall k :: i <= k < j ==> CleanEmail(Some(email)).value[k - i] == LowerOf(email[k])
  {
    var left := TrimLeft(email);
    var mid := TrimRight(left);
    TrimLeftCuts(email);
    TrimRightCuts(left);
    LowerAllEach(mid);
    i := |email| - |left|;
    j := i + |mid|;
  }

  function LowerOf(c: char): char {
    if 'A' <= c <= 'Z' then c + 32 as char else c
  }

  /** What lies outside i to j is blank, and what lies at its ends is not. */
  ghost predicate TrimmedTo(s: Text, i: int, j: int)
    requires 0 <= i <= j <= |s|
  {
    && (forall k :: 0 <= k < i || j <= k < |s| ==> IsBlank(s[k]))
    && (i < j ==> !IsBlank(s[i]) && !IsBlank(s[j - 1]))
  }

  lemma {:induction false} TrimLeftCuts(s: Text)
    ensures var i := |s| - |TrimLeft(s)|;
            && 0 <= i <= |s| && TrimLeft(s) == s[i..]
            && (forall k :: 0 <= k < i ==> IsBlank(s[k])) && (i < |s| ==> !IsBlank(s[i]))
  {
    if |s| > 0 && IsBlank(s[0]) {
      TrimLeftCuts(s[1..]);
    }
  }

  lemma {:induction false} TrimRightCuts(s: Text)
    ensures var j := |TrimRight(s)|;
            && 0 <= j <= |s| && TrimRight(s) == s[..j]
            && (forall k :: j <= k < |s| ==> IsBlank(s[k])) && (j > 0 ==> !IsBlank(s[j - 1]))
  {
    if |s| > 0 && IsBlank(s[|s| - 1]) {
      TrimRightCuts(s[..|s| - 1]);
    }
  }

  lemma {:induction false} LowerAllEach(s: Text)
    ensures |LowerAll(s)| == |s| && forall i :: 0 <= i < |s| ==> LowerAll(s)[i] == LowerOf(s[i])
  {
    if |s| > 0 {
      LowerAllEach(s[1..]);
    }
  }

  /** Cleaning is idempotent, so a stored email compares equal to itself given again in any case or padding. */
  lemma CleanEmailIdempotent(email: Text)
    requires CleanEmail(Some(email)).Some? && CleanEmail(Some(email)).value != ""
    ensures forall c :: c in CleanEmail(Some(email)).value ==> c < '\U{80}'
    ensures CleanEmail(Some(CleanEmail(Some(email)).value)) == CleanEmail(Some(email))
  {
    var left := TrimLeft(email);
    var trimmed := TrimRight(left);
    TrimmedEnds(email);
    TrimmedEnds(left);
    LoweredEach(trimmed);
    LoweredIsFixed(LowerAll(trimmed));
  }

  predicate Given(s: Option<string>) {
    s.Some? && s.value != ""
  }

  class LinkTables {
    var players: seq<Player>
    var links: map<string, nat>

    ghost predicate Valid()
      reads this
    {
      OnePerAccount(players) && forall d :: d in links ==> links[d] < |players|
    }

    constructor ()
      ensures Valid() && players == [] && links == map[]
    {
      players, links := [], map[];
    }

    /** Find or create the player of an account, refreshing a given email and name. */
    method UpsertPlayer(account: int, rawEmail: Option<Text>, displayName: Option<string>) returns (p: nat)
      requires Valid()
      modifies this
      ensures Valid() && links == old(links)
      ensures p < |players| && players[p].accountId == account
      ensures var email := CleanEmail(rawEmail);
              match PlayerByAccount(old(players), account)
              case None => p == |old(players)| && players == old(players) + [Player(account, email, displayName)]
              case Some(k) =>
                var was := old(players)[k];
                p == k && players == old(players)[k := was.(
                  email := if Given(email) then email else was.email,
                  displayName := if Given(displayName) then displayName else was.displayName)]
    {
      var email := CleanEmail(rawEmail);
      var existing := PlayerByAccount(players, account);
      if existing.None? {
        players := players + [Player(account, email, displayName)];
        p := |players| - 1;
      } else {
        p := existing.value;
        var player := players[p];
        if Given(email) && player.email != email {
          player := player.(email := email);
        }
        if Given(displayName) && player.displayName != displayName {
          player := player.(displayName := displayName);
        }
        players := players[p := player];
      }
    }

    method PlayerByDiscord(discord: string) returns (p: Option<nat>)
      requires Valid()
      ensures p.Some? <==> discord in links
      ensures p.Some? ==> p.value == links[discord] && p.value < |players|
    {
      p := if discord in links then Some(links[discord]) else None;
    }

    /** `link_discord`: bind a Discord user to the player a code derives from; a code of nobody changes nothing. */
    method LinkDiscord(digest: Digest, discord: string, code: Text) returns (p: Option<nat>)
      requires Valid()
      modifies this`links
      ensures Valid()
      ensures p == FirstWithCore(digest, players, Normalize(code), 0)
      ensures p.Some? ==> links == old(links)[discord := p.value]
      ensures p.None? ==> links == old(links)
    {
      p := FindPlayerByLinkCode(digest, players, code);
      if p.None? {
        return;
      }
      if discord !in links {
        links := links[discord := p.value];
      } else if links[discord] != p.value {
        links := links[discord := p.value];
      }
    }

    /** An account that shares its printed code has it bound to the claimer, and later lookups resolve to it. */
    method ClaimIssuedCode(digest: Digest, discord: string, k: nat) returns (p: Option<nat>)
      requires Valid() && FiveBytes(digest) && k < |players|
      requires forall i, j :: 0 <= i < j < |players| ==> digest(players[i].accountId) != digest(players[j].accountId)
      modifies this`links
      ensures Valid() && p == Some(k) && discord in links && links[discord] == k
      ensures forall other :: other != discord ==> (other in links <==> other in old(links))
      ensures forall other :: other != discord && other in links ==> links[other] == old(links)[other]
    {
      var code := LinkCode(digest, players[k].accountId);
      EncodeIsFolded(digest(players[k].accountId));
      NormalizePrinted(Core(digest, players[k].accountId));
      DistinctDigestsBindIssuer(digest, players, k, code);
      var bound := LinkDiscord(digest, discord, code);
      p := PlayerByDiscord(discord);
    }
  }
}
