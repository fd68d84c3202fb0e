/**
 * The environment rule for the database name (getInstance): on a staging
 * ("homologation") host the configured database name gets the marker,
 * first letter upper-cased, appended, unless it already carries it. Both
 * tests use strpos as a truth value, so a match at position 0 counts as no
 * match.
 */
module Environment {
  import opened Wrappers
  import opened Text

  /** PHP truthiness of a strpos result: `false` and `0` are both falsy. */
  predicate Truthy(p: Option<nat>) {
    p.Some? && p.value > 0
  }

  /** The suffix appended: ucfirst(marker). */
  function Suffix(marker: string): string {
    UcFirst(marker)
  }

  /** strpos($_SERVER['SERVER_NAME'], mb_strtolower(marker)), as a truth value. */
  predicate OnStagingHost(server: string, marker: string) {
    Truthy(FirstIndex(server, Lower(marker)))
  }

  /** strpos($this->database, ucfirst(marker)), as a truth value. */
  predicate CarriesSuffix(db: string, marker: string) {
    Truthy(FirstIndex(db, Suffix(marker)))
  }

  predicate ShouldAppend(server: string, marker: string, db: string) {
    OnStagingHost(server, marker) && !CarriesSuffix(db, marker)
  }

  /** The database name after the check at the head of getInstance. */
  function ResolveDatabase(server: string, marker: string, db: string): (r: string)
    ensures r == db || r == db + Suffix(marker)
  {
    if ShouldAppend(server, marker, db) then db + Suffix(marker) else db
  }

  /** `k` copies of `u`. */
  function Repeat(u: string, k: nat): string {
    if k == 0 then "" else Repeat(u, k - 1) + u
  }

  /**
   * The name settles after one append: `db + suffix` does not begin with
   * the suffix (which also requires `db` and the suffix to be non-empty).
   */
  predicate Settles(db: string, marker: string) {
    !OccursAt(db + Suffix(marker), Suffix(marker), 0)
  }

  /**
   * strpos as a truth value: the needle occurs somewhere, but not at the
   * very start.
   */
  lemma StrposTruthy(s: string, pat: string)
    ensures Truthy(FirstIndex(s, pat)) <==> !OccursAt(s, pat, 0) && exists k: nat :: OccursAt(s, pat, k)
  {
    FirstIndexSpec(s, pat);
    if exists k: nat :: OccursAt(s, pat, k) {
      var k: nat :| OccursAt(s, pat, k);
      FirstIndexAtMost(s, pat, k);
    }
  }

  /** A host whose name begins with the marker is not taken for a staging host. */
  lemma HostAtStartIgnored(server: string, marker: string)
    requires OccursAt(server, Lower(marker), 0)
    ensures !OnStagingHost(server, marker)
    ensures forall db :: ResolveDatabase(server, marker, db) == db
  {
    StrposTruthy(server, Lower(marker));
  }

  /** An empty marker never changes the name (strpos finds "" at 0). */
  lemma EmptyMarkerNeverAppends(server: string, db: string)
    ensures ResolveDatabase(server, "", db) == db
  {
    assert server[..0] == "";
  }

  /** A staging host implies a non-empty marker, hence a non-empty suffix. */
  lemma StagingMarkerNonEmpty(server: string, marker: string)
    requires OnStagingHost(server, marker)
    ensures |Suffix(marker)| > 0
  {
  }

  /** When the name settles, a second check does not append again. */
  lemma NoSecondAppend(server: string, marker: string, db: string)
    requires Settles(db, marker)
    ensures ResolveDatabase(server, marker, db + Suffix(marker)) == db + Suffix(marker)
  {
    var u := Suffix(marker);
    assert (db + u)[|db|..|db| + |u|] == u;
    assert OccursAt(db + u, u, |db|);
    StrposTruthy(db + u, u);
  }

  /**
   * When it does not settle, every later check on a staging host appends
   * again: after k appends the name still begins with the suffix.
   */
  lemma EveryCheckAppends(server: string, marker: string, db: string, k: nat)
    requires OnStagingHost(server, marker) && !Settles(db, marker) && k >= 1
    ensures ResolveDatabase(server, marker, db + Repeat(Suffix(marker), k)) == db + Repeat(Suffix(marker), k + 1)
  {
    var u := Suffix(marker);
    var x := db + Repeat(u, k);
    LeadingSuffixKept(db, u, k);
    FirstIndexAtMost(x, u, 0);
    assert ShouldAppend(server, marker, x);
    assert x + u == db + Repeat(u, k + 1);
  }

  /** When `db + u` begins with `u`, so does `db` followed by any k >= 1 copies of `u`. */
  lemma LeadingSuffixKept(db: string, u: string, k: nat)
    requires OccursAt(db + u, u, 0) && k >= 1
    ensures OccursAt(db + Repeat(u, k), u, 0)
  {
    RepeatCons(u, k);
    var x := db + Repeat(u, k);
    assert x == (db + u) + Repeat(u, k - 1);
    assert x[..|u|] == (db + u)[..|u|];
  }

  /** `k` copies of `u` are one copy followed by the other `k - 1`. */
  lemma {:induction false} RepeatCons(u: string, k: nat)
    requires k >= 1
    ensures Repeat(u, k) == u + Repeat(u, k - 1)
  {
    if k > 1 {
      RepeatCons(u, k - 1);
    }
  }

  /**
   * After an append, a second check on the same host leaves the name alone
   * exactly when the name settles.
   */
  lemma SecondCheckIff(server: string, marker: string, db: string)
    requires ShouldAppend(server, marker, db)
    ensures var once := ResolveDatabase(server, marker, db);
      once == db + Suffix(marker) &&
      (ResolveDatabase(server, marker, once) == once <==> Settles(db, marker))
  {
    StagingMarkerNonEmpty(server, marker);
    if Settles(db, marker) {
      NoSecondAppend(server, marker, db);
    } else {
      EveryCheckAppends(server, marker, db, 1);
      assert Repeat(Suffix(marker), 1) == Suffix(marker);
      assert Repeat(Suffix(marker), 2) == Suffix(marker) + Suffix(marker);
      assert |db + Suffix(marker) + Suffix(marker)| > |db + Suffix(marker)|;
    }
  }

  /** For a name that settles the rule is idempotent. */
  lemma ResolveIdempotent(server: string, marker: string, db: string)
    requires Settles(db, marker)
    ensures var once := ResolveDatabase(server, marker, db);
      ResolveDatabase(server, marker, once) == once
  {
    if ShouldAppend(server, marker, db) {
      NoSecondAppend(server, marker, db);
    }
  }

  /** A name that begins with the suffix never settles: it grows on every check. */
  lemma LeadingSuffixNeverSettles(db: string, marker: string)
    requires OccursAt(db, Suffix(marker), 0)
    ensures !Settles(db, marker)
  {
    var u := Suffix(marker);
    assert (db + u)[..|u|] == db[..|u|];
  }
}
