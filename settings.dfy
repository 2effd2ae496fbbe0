/**
 * The configuration object of the application, computed once from the
 * process environment: the two signing keys with their local-development
 * fallbacks, and the stored password hash with Docker Compose's `$$`
 * escaping undone.
 */
module Settings {
  import opened Wrappers

  type Env = map<string, string>

  const DefaultSecretKey: string := "a_secret_key_for_local"
  const DefaultCsrfSecretKey: string := "a_csrf_secret_key_for_local"

  datatype Config = Config(secretKey: string, csrfSecretKey: string, passwordHash: Option<string>)

  /** `os.environ.get(key, default)`. */
  function Get(env: Env, key: string, default: string): (r: string)
    ensures key in env ==> r == env[key]
    ensures key !in env ==> r == default
  {
    if key in env then env[key] else default
  }

  /**
   * `s.replace('$$', '$')`: occurrences found left to right, none
   * overlapping the previous one.
   */
  function Unescape(s: string): (r: string)
    ensures |r| <= |s|
    ensures s != [] ==> r != []
    decreases |s|
  {
    if |s| >= 2 && s[0] == '$' && s[1] == '$' then "$" + Unescape(s[2..])
    else if s == [] then []
    else [s[0]] + Unescape(s[1..])
  }

  /** The `Config` class attributes, for a given environment. */
  function Load(env: Env): (c: Config)
    ensures c.passwordHash == None <==> "PSHR" !in env || env["PSHR"] == ""
    ensures c.passwordHash.Some? ==> c.passwordHash.value == Unescape(env["PSHR"])
    ensures c.passwordHash.Some? ==> c.passwordHash.value != [] && |c.passwordHash.value| <= |env["PSHR"]|
  {
    var raw: Option<string> := if "PSHR" in env then Some(env["PSHR"]) else None;
    Config(
      Get(env, "FKEY", DefaultSecretKey),
      Get(env, "WTFKEY", DefaultCsrfSecretKey),
      if raw.Some? && raw.value != "" then Some(Unescape(raw.value)) else None)
  }

  /** A missing key falls back to the fixed local value; a present one, even empty, is used as is. */
  lemma LoadKeys(env: Env)
    ensures "FKEY" !in env ==> Load(env).secretKey == DefaultSecretKey
    ensures "FKEY" in env ==> Load(env).secretKey == env["FKEY"]
    ensures "WTFKEY" !in env ==> Load(env).csrfSecretKey == DefaultCsrfSecretKey
    ensures "WTFKEY" in env ==> Load(env).csrfSecretKey == env["WTFKEY"]
  {
  }

  // ---------------------------------------------------------------------
  // What the unescaping does

  predicate HasDoubleDollar(s: string) {
    exists i :: 0 <= i < |s| - 1 && s[i] == '$' && s[i + 1] == '$'
  }

  /**
   * `s.count('$$')`: non-overlapping occurrences, counted left to right.
   * Each takes two characters, and there is one exactly when `$$` occurs.
   */
  function CountDoubleDollar(s: string): (r: nat)
    ensures 2 * r <= |s|
    ensures r == 0 <==> !HasDoubleDollar(s)
    decreases |s|
  {
    if |s| >= 2 && s[0] == '$' && s[1] == '$' then
      assert 0 <= 0 < |s| - 1 && s[0] == '$' && s[0 + 1] == '$';
      1 + CountDoubleDollar(s[2..])
    else if s == [] then 0
    else
      HasDoubleDollarTail(s);
      CountDoubleDollar(s[1..])
  }

  /** When `s` does not start with `$$`, any `$$` in it lies in its tail. */
  lemma HasDoubleDollarTail(s: string)
    requires s != [] && !(|s| >= 2 && s[0] == '$' && s[1] == '$')
    ensures HasDoubleDollar(s) <==> HasDoubleDollar(s[1..])
  {
    var t := s[1..];
    if HasDoubleDollar(s) {
      var i :| 0 <= i < |s| - 1 && s[i] == '$' && s[i + 1] == '$';
      assert t[i - 1] == s[i] && t[i] == s[i + 1];
    }
    if HasDoubleDollar(t) {
      var i :| 0 <= i < |t| - 1 && t[i] == '$' && t[i + 1] == '$';
      assert s[i + 1] == t[i] && s[i + 2] == t[i + 1];
    }
  }

  function Dollars(m: nat): (r: string)
    ensures |r| == m && forall i :: 0 <= i < m ==> r[i] == '$'
  {
    seq(m, _ => '$')
  }

  /** The characters of `s` other than `$`, in order. */
  function NonDollars(s: string): string
    decreases |s|
  {
    if s == [] then [] else (if s[0] == '$' then [] else [s[0]]) + NonDollars(s[1..])
  }

  /** Doubling every `$`: the escaping that deployment tools apply and that the loader undoes. */
  function Escape(s: string): (r: string)
    ensures |r| >= |s|
    decreases |s|
  {
    if s == [] then [] else (if s[0] == '$' then "$$" else [s[0]]) + Escape(s[1..])
  }

  /** A string without `$$` comes back unchanged. */
  lemma {:induction false} UnescapeWithoutDoubleDollar(s: string)
    requires !HasDoubleDollar(s)
    ensures Unescape(s) == s
    decreases |s|
  {
    if s != [] {
      var t := s[1..];
      forall i | 0 <= i < |t| - 1 ensures !(t[i] == '$' && t[i + 1] == '$') {
        assert t[i] == s[i + 1] && t[i + 1] == s[i + 2];
      }
      UnescapeWithoutDoubleDollar(s[1..]);
    }
  }

  /** Each replacement removes exactly one character. */
  lemma {:induction false} UnescapeLength(s: string)
    ensures |Unescape(s)| == |s| - CountDoubleDollar(s)
    decreases |s|
  {
    if |s| >= 2 && s[0] == '$' && s[1] == '$' {
      UnescapeLength(s[2..]);
    } else if s != [] {
      UnescapeLength(s[1..]);
    }
  }

  lemma {:induction false} NonDollarsAppend(a: string, b: string)
    ensures NonDollars(a + b) == NonDollars(a) + NonDollars(b)
    decreases |a|
  {
    if a != [] {
      assert (a + b)[0] == a[0];
      assert (a + b)[1..] == a[1..] + b;
      NonDollarsAppend(a[1..], b);
    } else {
      assert a + b == b;
    }
  }

  /** Characters other than `$` are kept, in their order. */
  lemma {:induction false} UnescapeKeepsOtherCharacters(s: string)
    ensures NonDollars(Unescape(s)) == NonDollars(s)
    decreases |s|
  {
    if |s| >= 2 && s[0] == '$' && s[1] == '$' {
      UnescapeKeepsOtherCharacters(s[2..]);
      NonDollarsAppend("$", Unescape(s[2..]));
      assert NonDollars(s) == NonDollars(s[1..]);
      assert s[1..][1..] == s[2..];
    } else if s != [] {
      UnescapeKeepsOtherCharacters(s[1..]);
      NonDollarsAppend([s[0]], Unescape(s[1..]));
    }
  }

  /**
   * A maximal run of m dollars becomes ceil(m/2) dollars: together with the
   * characters around it (Unescape of the rest starts after the run) this
   * determines the result completely.
   */
  lemma {:induction false} UnescapeRun(m: nat, t: string)
    requires t == [] || t[0] != '$'
    ensures Unescape(Dollars(m) + t) == Dollars((m + 1) / 2) + Unescape(t)
    decreases m
  {
    var s := Dollars(m) + t;
    if m >= 2 {
      assert s[2..] == Dollars(m - 2) + t;
      UnescapeRun(m - 2, t);
      assert Dollars((m + 1) / 2) == "$" + Dollars((m - 2 + 1) / 2);
    } else if m == 1 {
      assert s == "$" + t;
      assert s[1..] == t;
      assert Dollars(1) == "$";
    } else {
      assert s == t;
    }
  }

  /** Undoing the deployment escaping gives back the original string. */
  lemma {:induction false} UnescapeEscape(s: string)
    ensures Unescape(Escape(s)) == s
    decreases |s|
  {
    if s != [] {
      var e := Escape(s);
      UnescapeEscape(s[1..]);
      if s[0] == '$' {
        assert e[2..] == Escape(s[1..]);
      } else {
        assert e[1..] == Escape(s[1..]);
      }
    }
  }

  lemma UnescapePair(t: string)
    ensures Unescape("$$" + t) == "$" + Unescape(t)
  {
    assert ("$$" + t)[2..] == t;
  }

  /** Unescaping is not idempotent: four dollars become two, then one. */
  lemma UnescapeNotIdempotent()
    ensures Unescape("$$$$") == "$$"
    ensures Unescape(Unescape("$$$$")) == "$"
    ensures Unescape("$$$") == "$$"
  {
    UnescapeRun(4, "");
    UnescapeRun(3, "");
    UnescapeRun(2, "");
    assert Dollars(4) == "$$$$" && Dollars(3) == "$$$" && Dollars(2) == "$$" && Dollars(1) == "$";
  }

  /** Unescaping works piecewise across a boundary that does not split a run of dollars. */
  lemma {:induction false} UnescapeAppend(a: string, b: string)
    requires a == [] || a[|a| - 1] != '$'
    ensures Unescape(a + b) == Unescape(a) + Unescape(b)
    decreases |a|
  {
    if a == [] {
      assert a + b == b;
    } else if |a| >= 2 && a[0] == '$' && a[1] == '$' {
      UnescapeAppend(a[2..], b);
      UnescapePairPrefix(a, b);
    } else {
      UnescapeAppend(a[1..], b);
      UnescapeSinglePrefix(a, b);
    }
  }

  lemma UnescapePairPrefix(a: string, b: string)
    requires |a| >= 2 && a[0] == '$' && a[1] == '$'
    ensures Unescape(a + b) == "$" + Unescape(a[2..] + b)
  {
    var ab := a + b;
    assert ab[0] == '$' && ab[1] == '$';
    assert ab[2..] == a[2..] + b;
  }

  lemma UnescapeSinglePrefix(a: string, b: string)
    requires a != [] && a[|a| - 1] != '$'
    requires !(|a| >= 2 && a[0] == '$' && a[1] == '$')
    ensures Unescape(a + b) == [a[0]] + Unescape(a[1..] + b)
  {
    var ab := a + b;
    assert ab[0] == a[0];
    assert |a| >= 2 ==> ab[1] == a[1];
    assert ab[1..] == a[1..] + b;
  }

  /**
   * A bcrypt hash `$<id>$<cost>$<rest>` whose second and third separators
   * were doubled for Docker Compose, as in `$2b$$10$$abc`, is restored to
   * `$<id>$<cost>$<rest>`.
   */
  lemma UnescapeBcryptLayout(id: string, cost: string, rest: string)
    requires id != [] && cost != []
    requires '$' !in id && '$' !in cost && '$' !in rest
    ensures Unescape("$" + id + ("$$" + cost + ("$$" + rest))) == "$" + id + ("$" + cost + ("$" + rest))
  {
    UnescapeDoubledSeparator(rest);
    UnescapeFieldThen("$$", cost, "$$" + rest);
    UnescapeFieldThen("$", id, "$$" + cost + ("$$" + rest));
  }

  /** The deployment value `$2b$$10$$abc` is read back as `$2b$10$abc`. */
  lemma UnescapeBcryptExample()
    ensures Unescape("$2b$$10$$abc") == "$2b$10$abc"
  {
    UnescapeBcryptLayout("2b", "10", "abc");
    assert "$2b$$10$$abc" == "$" + "2b" + ("$$" + "10" + ("$$" + "abc"));
    assert "$2b$10$abc" == "$" + "2b" + ("$" + "10" + ("$" + "abc"));
  }

  /** A separator of one or two dollars, then a field without dollars, then anything. */
  lemma UnescapeFieldThen(sep: string, t: string, u: string)
    requires sep == "$" || sep == "$$"
    requires t != [] && '$' !in t
    ensures Unescape(sep + t + u) == "$" + t + Unescape(u)
  {
    var p := sep + t;
    assert p[|p| - 1] == t[|t| - 1];
    UnescapeAppend(p, u);
    if sep == "$" {
      UnescapeSeparator(t);
    } else {
      UnescapeDoubledSeparator(t);
    }
  }

  lemma UnescapeSeparator(t: string)
    requires t != [] && '$' !in t
    ensures Unescape("$" + t) == "$" + t
  {
    var s := "$" + t;
    forall i | 0 <= i < |s| - 1 ensures !(s[i] == '$' && s[i + 1] == '$') {
      assert s[i + 1] == t[i];
    }
    UnescapeWithoutDoubleDollar(s);
  }

  lemma UnescapeDoubledSeparator(t: string)
    requires '$' !in t
    ensures Unescape("$$" + t) == "$" + t
  {
    UnescapePair(t);
    UnescapeWithoutDoubleDollar(t);
  }

  /** `PSHR` holding the Compose-escaped form of a bcrypt hash yields the hash itself. */
  lemma LoadBcryptHash(env: Env, id: string, cost: string, rest: string)
    requires id != [] && cost != []
    requires '$' !in id && '$' !in cost && '$' !in rest
    requires "PSHR" in env && env["PSHR"] == "$" + id + ("$$" + cost + ("$$" + rest))
    ensures Load(env).passwordHash == Some("$" + id + ("$" + cost + ("$" + rest)))
  {
    UnescapeBcryptLayout(id, cost, rest);
  }

  /** Whatever non-empty hash was escaped into `PSHR` is what the configuration holds. */
  lemma LoadEscapedHash(env: Env, hash: string)
    requires hash != []
    requires "PSHR" in env && env["PSHR"] == Escape(hash)
    ensures Load(env).passwordHash == Some(hash)
  {
    UnescapeEscape(hash);
  }
}
