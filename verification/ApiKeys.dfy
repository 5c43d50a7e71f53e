/** The scope algebra of API keys (app/core/apikeys.py). */
module ApiKeys {
  import opened Basics

  const VALID_SCOPES: set<string> := {
    "read", "write", "trigger", "ingest",
    "read:sponsors", "write:sponsors", "read:finance", "write:finance",
    "read:games", "write:games", "read:members", "read:people", "write:people",
    "read:documents", "write:documents", "read:membercard", "write:keys"}

  predicate Isolated(m: Option<string>) {
    m == Some("finance") || m == Some("sponsors")
  }

  /** What follows the first colon, if there is one. */
  function ModuleOf(required: string): Option<string> {
    if |required| == 0 then None
    else if required[0] == ':' then Some(required[1..])
    else ModuleOf(required[1..])
  }

  /** Does a credential carrying `scopes` satisfy `required`? */
  predicate HasScope(scopes: set<string>, required: string) {
    || required in scopes
    || (!Isolated(ModuleOf(required)) && "write" in scopes
        && (required == "read" || "read:" <= required || "write:" <= required))
    || (!Isolated(ModuleOf(required)) && "read" in scopes && "read:" <= required)
    || ("read:" <= required && "write:" + required[5..] in scopes)
  }

  /** One scope covers another when a key holding just the first satisfies the second. */
  predicate Covers(a: string, b: string) {
    HasScope({a}, b)
  }

  /** A set of scopes satisfies what some one of its members covers. */
  lemma HasScopeByMember(scopes: set<string>, required: string)
    ensures HasScope(scopes, required) <==> exists a :: a in scopes && Covers(a, required)
  {
    if HasScope(scopes, required) {
      if required in scopes {
        assert Covers(required, required);
      } else if "read:" <= required && "write:" + required[5..] in scopes {
        assert Covers("write:" + required[5..], required);
      } else if "write" in scopes && Covers("write", required) {
      } else {
        assert Covers("read", required);
      }
    }
  }

  lemma {:induction false} ModuleAfterColon(head: string, x: string)
    requires ':' !in head
    ensures ModuleOf(head + ":" + x) == Some(x)
  {
    var s := head + ":" + x;
    if |head| == 0 {
      assert s[1..] == x;
    } else {
      assert s[1..] == head[1..] + ":" + x;
      ModuleAfterColon(head[1..], x);
    }
  }

  lemma ModuleOfRead(x: string)
    ensures ModuleOf("read:" + x) == Some(x) && ModuleOf("write:" + x) == Some(x)
  {
    ModuleAfterColon("read", x);
    ModuleAfterColon("write", x);
    assert "read" + ":" + x == "read:" + x && "write" + ":" + x == "write:" + x;
  }

  /** Satisfying is transitive over all scope strings: what a member of a set covers, the set satisfies. */
  lemma CoversTransitive(a: string, b: string, c: string)
    requires Covers(a, b) && Covers(b, c)
    ensures Covers(a, c)
  {
    if a != b && b != c {
      // c is a "read:" scope, or the coarse "read" below "write", or below a coarse scope
      if "read:" <= c && b == "write:" + c[5..] {
        assert c == "read:" + c[5..];
        ModuleOfRead(c[5..]);
      }
      if b == "read" || b == "write" {
        assert ModuleOf(b).None? by { ModuleWithoutColon(b); }
      }
    }
  }

  lemma {:induction false} ModuleWithoutColon(s: string)
    requires ':' !in s
    ensures ModuleOf(s).None?
  {
    if |s| > 0 {
      ModuleWithoutColon(s[1..]);
    }
  }

  /** If every scope of one key is satisfied by another, so is everything the first satisfies. */
  lemma SubsetSatisfiesLess(scopes: set<string>, minted: set<string>, required: string)
    requires forall s :: s in minted ==> HasScope(scopes, s)
    requires HasScope(minted, required)
    ensures HasScope(scopes, required)
  {
    HasScopeByMember(minted, required);
    var s :| s in minted && Covers(s, required);
    HasScopeByMember(scopes, s);
    var a :| a in scopes && Covers(a, s);
    CoversTransitive(a, s, required);
    HasScopeByMember(scopes, required);
  }

  /** An isolated scope is satisfied only by a scope of the same module, never by coarse read or write. */
  lemma IsolatedOnlyByName(scopes: set<string>, required: string)
    requires Isolated(ModuleOf(required)) && HasScope(scopes, required)
    ensures exists s :: s in scopes && ModuleOf(s) == ModuleOf(required)
  {
    if required !in scopes {
      ModuleOfRead(required[5..]);
      assert required == "read:" + required[5..];
    }
  }

  // ---- What each spelled scope needs ----

  /** A module that only its own scopes reach. */
  predicate OwnScopesOnly(x: string) {
    x == "finance" || x == "sponsors"
  }

  /** `write:x` needs itself, or coarse write when x is not isolated; coarse read never grants it. */
  lemma WriteScopeNeeds(scopes: set<string>, x: string)
    ensures HasScope(scopes, "write:" + x) <==>
            "write:" + x in scopes || ("write" in scopes && !OwnScopesOnly(x))
  {
    ModuleOfRead(x);
    assert ("write:" + x)[0] == 'w';
  }

  /** `read:x` needs itself or `write:x`, or coarse read or write when x is not isolated. */
  lemma ReadScopeNeeds(scopes: set<string>, x: string)
    ensures HasScope(scopes, "read:" + x) <==>
            || "read:" + x in scopes || "write:" + x in scopes
            || (!OwnScopesOnly(x) && ("read" in scopes || "write" in scopes))
  {
    ModuleOfRead(x);
    assert ("read:" + x)[5..] == x;
    assert ("read:" + x)[0] == 'r';
  }

  /** Coarse read needs itself or coarse write. */
  lemma CoarseReadNeeds(scopes: set<string>)
    ensures HasScope(scopes, "read") <==> "read" in scopes || "write" in scopes
  {
    ModuleWithoutColon("read");
  }

  /** Every other scope, such as trigger, ingest or coarse write, needs itself. */
  lemma OtherScopeNeeds(scopes: set<string>, required: string)
    requires !("read:" <= required) && !("write:" <= required) && required != "read"
    ensures HasScope(scopes, required) <==> required in scopes
  {
  }

  predicate ReadOnly(scope: string) {
    scope == "read" || "read:" <= scope
  }

  /** So read scopes, however many, satisfy no write scope and no coarse write. */
  lemma ReadOnlyNeverWrites(scopes: set<string>, x: string)
    requires forall s :: s in scopes ==> ReadOnly(s)
    ensures !HasScope(scopes, "write:" + x) && !HasScope(scopes, "write")
  {
    WriteScopeNeeds(scopes, x);
    OtherScopeNeeds(scopes, "write");
    assert ("write:" + x)[0] == 'w' && "write"[0] == 'w';
  }
}
