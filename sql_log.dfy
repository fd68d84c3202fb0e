/**
 * The debug form of an executed statement (setLogSQL): the query text with
 * each bound parameter written in as literal-looking text. It is for human
 * reading only, is never executed, and is not SQL-safe: strings are quoted
 * without any escaping.
 */
module SqlLog {
  import opened Wrappers
  import opened Text

  /** A PHP DateTime, by its calendar fields. */
  datatype DateTime = DateTime(year: int, month: nat, day: nat, hour: nat, minute: nat, second: nat)

  /** A bound parameter value, by the PHP types setLogSQL tells apart. */
  datatype Param =
    | Str(s: string)
    | Null
    | Int(i: int)
    | Bool(b: bool)
    | Arr(items: seq<string>)
    | Date(d: DateTime)
    | OtherObj

  /** A key of the parameter array: an integer or a string. */
  datatype Key = Index(i: int) | Name(name: string)

  /** One key => value entry of the parameter array, in iteration order. */
  datatype Binding = Binding(key: Key, value: Param)

  // ---------------------------------------------------------------------
  // Rendering one value

  /** DateTime::format('Y-m-d H:i:s'): the year has at least four digits. */
  function FormatDate(d: DateTime): string {
    YearText(d.year) + ("-" + (Pad(d.month, 2) + ("-" + (Pad(d.day, 2) + (" "
      + (Pad(d.hour, 2) + (":" + (Pad(d.minute, 2) + (":" + Pad(d.second, 2))))))))))
  }

  function YearText(y: int): string {
    if y < 0 then "-" + Pad(-y, 4) else Pad(y, 4)
  }

  /**
   * The text a value is written as, or None for an object that is not a
   * DateTime, which is skipped.
   */
  function Render(v: Param): (r: Option<string>)
    ensures r.None? <==> v.OtherObj?
    ensures v.Str? ==> |r.value| == |v.s| + 2 && r.value[0] == '\'' && r.value[|r.value| - 1] == '\''
  {
    match v
    case Str(s) => Some("'" + s + "'")
    case Null => Some("NULL")
    case Int(i) => Some(IntToString(i))
    case Bool(b) => Some(if b then "1" else "")
    case Arr(xs) => Some(Join(xs, ','))
    case Date(d) => Some(FormatDate(d))
    case OtherObj => None
  }

  /** The placeholder a key stands for in named mode: a leading ':' is added when missing. */
  function Token(k: Key): (t: string)
    ensures |t| >= 1 && t[0] == ':'
  {
    match k
    case Index(i) => ":" + IntToString(i)
    case Name(n) => if n != "" && n[0] == ':' then n else ":" + n
  }

  // ---------------------------------------------------------------------
  // The rewrite

  /** `$params == array_values($params)`: the keys are 0, 1, ..., n-1 in order. */
  predicate Indexed(ps: seq<Binding>) {
    forall j | 0 <= j < |ps| :: ps[j].key == Index(j)
  }

  /** One pass of the foreach loop. */
  function Step(sql: string, b: Binding, indexed: bool): string {
    match Render(b.value)
    case None => sql
    case Some(t) => if indexed then ReplaceFirst(sql, '?', t) else ReplaceAll(sql, Token(b.key), t)
  }

  /** The loop over the remaining entries. */
  function Fold(sql: string, ps: seq<Binding>, indexed: bool): string
    decreases |ps|
  {
    if ps == [] then sql else Fold(Step(sql, ps[0], indexed), ps[1..], indexed)
  }

  /** The value setLogSQL stores: the query itself when there are no parameters. */
  function RenderForLog(query: string, ps: seq<Binding>): (r: string)
    ensures ps == [] ==> r == query
  {
    if ps == [] then query else Fold(query, ps, Indexed(ps))
  }

  // ---------------------------------------------------------------------
  // What PHP guarantees of a parameter array, and what the model excludes

  /** The integer keys are the whole range 0..n-1. */
  predicate KeysAreRange(ps: seq<Binding>) {
    forall j | 0 <= j < |ps| :: ps[j].key.Index? && 0 <= ps[j].key.i < |ps|
  }

  /**
   * preg_replace copies `t` literally: no backslash before a digit, a
   * backslash or a '$', and no `$n` or `${n`. (A `${n` without its closing
   * brace would also be copied; it is excluded all the same.)
   */
  predicate LiteralText(t: string) {
    (forall i | 0 <= i < |t| - 1 && t[i] == '\\' ::
      !IsDigit(t[i + 1]) && t[i + 1] != '\\' && t[i + 1] != '$') &&
    (forall i | 0 <= i < |t| - 1 && t[i] == '$' ::
      !IsDigit(t[i + 1]) && !(t[i + 1] == '{' && i + 2 < |t| && IsDigit(t[i + 2])))
  }

  predicate LiteralRendering(v: Param) {
    match Render(v)
    case None => true
    case Some(t) => LiteralText(t)
  }

  /**
   * A parameter array as PHP can build it, inside the part the model covers:
   * keys are distinct; a string key is never a canonical integer (PHP turns
   * those into integer keys); keys 0..n-1 out of order, whose loose
   * comparison depends on the values, are excluded; and in positional mode
   * no value would be read as a backreference.
   */
  predicate ValidParams(ps: seq<Binding>) {
    (forall i, j | 0 <= i < j < |ps| :: ps[i].key != ps[j].key) &&
    (forall i | 0 <= i < |ps| && ps[i].key.Name? ::
      ps[i].key.name != IntToString(ParseInt(ps[i].key.name))) &&
    (KeysAreRange(ps) ==> Indexed(ps)) &&
    (Indexed(ps) ==> forall i | 0 <= i < |ps| :: LiteralRendering(ps[i].value))
  }

  /** setLogSQL's loop, computing the text it stores in logSQL. */
  method Reconstruct(query: string, params: seq<Binding>) returns (sql: string)
    requires ValidParams(params)
    ensures sql == RenderForLog(query, params)
  {
    sql := query;
    if |params| > 0 {
      var indexed := Indexed(params);
      var i := 0;
      while i < |params|
        invariant 0 <= i <= |params|
        invariant Fold(sql, params[i..], indexed) == RenderForLog(query, params)
      {
        var v := Render(params[i].value);
        if v.Some? {
          if indexed {
            sql := ReplaceFirst(sql, '?', v.value);
          } else {
            sql := ReplaceAll(sql, Token(params[i].key), v.value);
          }
        }
        i := i + 1;
      }
    }
  }

  // ---------------------------------------------------------------------
  // Positional mode against a one-pass reference

  /** Number of '?' marks in `s`. */
  function Marks(s: string): nat {
    if s == [] then 0 else (if s[0] == '?' then 1 else 0) + Marks(s[1..])
  }

  /**
   * Reference reading of positional substitution: scan the query once, and
   * let each '?' take the next value while values remain.
   */
  function PositionalFill(q: string, vs: seq<string>): string
    decreases |q|
  {
    if q == [] then []
    else if q[0] == '?' && vs != [] then vs[0] + PositionalFill(q[1..], vs[1..])
    else [q[0]] + PositionalFill(q[1..], vs)
  }

  /** The texts of the values that are substituted, in order: skipped objects drop out. */
  function Rendered(ps: seq<Binding>): (vs: seq<string>)
    ensures |vs| <= |ps|
  {
    if ps == [] then []
    else match Render(ps[0].value)
      case None => Rendered(ps[1..])
      case Some(t) => [t] + Rendered(ps[1..])
  }

  /** No substituted value carries a '?' of its own. */
  predicate MarkFree(ps: seq<Binding>) {
    forall i | 0 <= i < |ps| :: Render(ps[i].value).None? || '?' !in Render(ps[i].value).value
  }

  lemma {:induction false} FillPrefix(x: string, y: string, vs: seq<string>)
    requires '?' !in x
    ensures PositionalFill(x + y, vs) == x + PositionalFill(y, vs)
  {
    if x != [] {
      assert (x + y)[0] == x[0] && (x + y)[1..] == x[1..] + y;
      FillPrefix(x[1..], y, vs);
      assert x == [x[0]] + x[1..];
    } else {
      assert x + y == y;
    }
  }

  /** preg_replace of the first '?' is one step of the reference scan. */
  lemma {:induction false} FillStep(q: string, t: string, vs: seq<string>)
    requires '?' !in t
    ensures PositionalFill(ReplaceFirst(q, '?', t), vs) == PositionalFill(q, [t] + vs)
  {
    if q == [] {
    } else if q[0] == '?' {
      FillPrefix(t, q[1..], vs);
      assert ([t] + vs)[1..] == vs;
    } else {
      var r := ReplaceFirst(q[1..], '?', t);
      assert ([q[0]] + r)[1..] == r;
      FillStep(q[1..], t, vs);
    }
  }

  lemma {:induction false} FoldPositional(sql: string, ps: seq<Binding>)
    requires MarkFree(ps)
    ensures Fold(sql, ps, true) == PositionalFill(sql, Rendered(ps))
    decreases |ps|
  {
    if ps == [] {
      FillNone(sql);
    } else {
      assert MarkFree(ps[1..]) by {
        forall i | 0 <= i < |ps| - 1 ensures Render(ps[1..][i].value).None? || '?' !in Render(ps[1..][i].value).value {
          assert ps[1..][i] == ps[i + 1];
        }
      }
      FoldPositional(Step(sql, ps[0], true), ps[1..]);
      match Render(ps[0].value)
      case None =>
      case Some(t) => FillStep(sql, t, Rendered(ps[1..]));
    }
  }

  lemma {:induction false} FillNone(q: string)
    ensures PositionalFill(q, []) == q
  {
    if q != [] { FillNone(q[1..]); }
  }

  /**
   * In positional mode, when no value carries a '?', the log is the query
   * with its '?' marks filled left to right by the non-skipped values.
   */
  lemma PositionalMatchesScan(q: string, ps: seq<Binding>)
    requires Indexed(ps) && MarkFree(ps)
    ensures RenderForLog(q, ps) == PositionalFill(q, Rendered(ps))
  {
    if ps == [] { FillNone(q); } else { FoldPositional(q, ps); }
  }

  lemma {:induction false} MarksConcat(x: string, y: string)
    ensures Marks(x + y) == Marks(x) + Marks(y)
  {
    if x != [] {
      assert (x + y)[0] == x[0] && (x + y)[1..] == x[1..] + y;
      MarksConcat(x[1..], y);
    } else {
      assert x + y == y;
    }
  }

  lemma {:induction false} FillMarks(q: string, vs: seq<string>)
    requires forall i | 0 <= i < |vs| :: '?' !in vs[i]
    ensures Marks(PositionalFill(q, vs)) == if Marks(q) <= |vs| then 0 else Marks(q) - |vs|
    decreases |q|
  {
    if q == [] {
    } else if q[0] == '?' && vs != [] {
      FillMarks(q[1..], vs[1..]);
      MarksConcat(vs[0], PositionalFill(q[1..], vs[1..]));
      MarksNone(vs[0]);
    } else {
      FillMarks(q[1..], vs);
      MarksConcat([q[0]], PositionalFill(q[1..], vs));
    }
  }

  lemma {:induction false} MarksNone(s: string)
    requires '?' !in s
    ensures Marks(s) == 0
  {
    if s != [] { MarksNone(s[1..]); }
  }

  lemma RenderedMarkFree(ps: seq<Binding>)
    requires MarkFree(ps)
    ensures forall i | 0 <= i < |Rendered(ps)| :: '?' !in Rendered(ps)[i]
    decreases |ps|
  {
    if ps != [] {
      assert MarkFree(ps[1..]) by {
        forall i | 0 <= i < |ps| - 1 ensures Render(ps[1..][i].value).None? || '?' !in Render(ps[1..][i].value).value {
          assert ps[1..][i] == ps[i + 1];
        }
      }
      RenderedMarkFree(ps[1..]);
    }
  }

  /**
   * Positional mode substitutes exactly one '?' per substituted value and
   * never more than there are parameters: the marks left are the marks of
   * the query less the values, down to none.
   */
  lemma PositionalSubstitutions(q: string, ps: seq<Binding>)
    requires Indexed(ps) && MarkFree(ps)
    ensures var n := |Rendered(ps)|;
      n <= |ps| && Marks(RenderForLog(q, ps)) == if Marks(q) <= n then 0 else Marks(q) - n
  {
    PositionalMatchesScan(q, ps);
    RenderedMarkFree(ps);
    FillMarks(q, Rendered(ps));
  }

  /**
   * For any values, '?' marks included, each substituted value fills at
   * most one mark: the marks left plus the values substituted are at least
   * the marks of the query.
   */
  lemma PositionalMarksBound(q: string, ps: seq<Binding>)
    requires Indexed(ps)
    ensures Marks(RenderForLog(q, ps)) + |Rendered(ps)| >= Marks(q)
  {
    if ps != [] {
      FoldMarks(q, ps);
    }
  }

  lemma {:induction false} FoldMarks(sql: string, ps: seq<Binding>)
    ensures Marks(Fold(sql, ps, true)) + |Rendered(ps)| >= Marks(sql)
    decreases |ps|
  {
    if ps != [] {
      var next := Step(sql, ps[0], true);
      FoldMarks(next, ps[1..]);
      if Render(ps[0].value).Some? {
        ReplaceFirstMarks(sql, Render(ps[0].value).value);
      }
    }
  }

  /** Replacing the first '?' removes at most one mark (the value may bring some). */
  lemma {:induction false} ReplaceFirstMarks(s: string, t: string)
    ensures Marks(ReplaceFirst(s, '?', t)) + 1 >= Marks(s)
    decreases |s|
  {
    if s != [] {
      if s[0] == '?' {
        MarksConcat(t, s[1..]);
      } else {
        ReplaceFirstMarks(s[1..], t);
        MarksConcat([s[0]], ReplaceFirst(s[1..], '?', t));
      }
    }
  }

  /** In positional mode a query without '?' is logged unchanged, whatever the values hold. */
  lemma UnmarkedQueryUnchanged(q: string, ps: seq<Binding>)
    requires Indexed(ps) && Marks(q) == 0
    ensures RenderForLog(q, ps) == q
  {
    MarksZero(q);
    FoldUnmarked(q, ps);
  }

  lemma {:induction false} MarksZero(s: string)
    requires Marks(s) == 0
    ensures '?' !in s
  {
    if s != [] {
      MarksZero(s[1..]);
      assert s == [s[0]] + s[1..];
    }
  }

  lemma {:induction false} FoldUnmarked(sql: string, ps: seq<Binding>)
    requires '?' !in sql
    ensures Fold(sql, ps, true) == sql
    decreases |ps|
  {
    if ps != [] {
      assert Step(sql, ps[0], true) == sql by {
        if Render(ps[0].value).Some? {
          ReplaceFirstAbsent(sql, '?', Render(ps[0].value).value);
        }
      }
      FoldUnmarked(sql, ps[1..]);
    }
  }

  /** A single positional parameter fills the first '?' with its rendering. */
  lemma PositionalSingle(a: string, b: string, v: Param)
    requires '?' !in a && Render(v).Some?
    ensures RenderForLog(a + "?" + b, [Binding(Index(0), v)]) == a + Render(v).value + b
  {
    var t := Render(v).value;
    var ps := [Binding(Index(0), v)];
    assert Indexed(ps);
    ReplaceFirstAt(a, b, '?', t);
    assert a + "?" + b == a + ['?'] + b;
    assert Fold(a + "?" + b, ps, true) == Fold(a + t + b, [], true);
  }

  /**
   * A string is quoted without escaping: after a '?'-free prefix, the value
   * O'Brien is logged as 'O'Brien'.
   */
  lemma QuotedWithoutEscaping(a: string, b: string)
    requires '?' !in a
    ensures RenderForLog(a + "?" + b, [Binding(Index(0), Str("O'Brien"))]) == a + "'O'Brien'" + b
  {
    PositionalSingle(a, b, Str("O'Brien"));
  }

  /** A skipped object leaves its '?' to the next parameter. */
  lemma SkippedObjectKeepsMark(a: string, b: string, c: string, v: Param)
    requires '?' !in a && Render(v).Some?
    ensures RenderForLog(a + "?" + b + "?" + c, [Binding(Index(0), OtherObj), Binding(Index(1), v)])
      == a + Render(v).value + b + "?" + c
  {
    var ps := [Binding(Index(0), OtherObj), Binding(Index(1), v)];
    var t := Render(v).value;
    assert Indexed(ps);
    var q := a + "?" + b + "?" + c;
    assert q == a + ['?'] + (b + "?" + c);
    ReplaceFirstAt(a, b + "?" + c, '?', t);
    assert ps[1..][1..] == [];
    calc {
      RenderForLog(q, ps);
      Fold(q, ps, true);
      Fold(q, ps[1..], true);
      Fold(ReplaceFirst(q, '?', t), [], true);
      a + t + (b + "?" + c);
    }
  }

  /**
   * Each preg_replace searches the current text, inserted values included:
   * a '?' inside the first value is taken by the second parameter before
   * the query's own next '?'.
   */
  lemma InsertedMarkIsFilled(x: string, y: string, z: string, r: string)
    requires '?' !in x
    ensures RenderForLog("?" + r, [Binding(Index(0), Str(x + "?" + y)), Binding(Index(1), Str(z))])
      == "'" + x + "'" + z + "'" + y + "'" + r
  {
    var first := "'" + x + "?" + y + "'";
    var second := "'" + z + "'";
    assert Render(Str(x + "?" + y)) == Some(first) by {
      assert "'" + (x + "?" + y) + "'" == first;
    }
    PositionalTwo("?" + r, Str(x + "?" + y), Str(z));
    var s1 := first + r;
    assert ReplaceFirst("?" + r, '?', first) == s1 by {
      ReplaceFirstAt([], r, '?', first);
      assert [] + ['?'] + r == "?" + r;
      assert [] + first + r == s1;
    }
    assert ReplaceFirst(s1, '?', second) == "'" + x + "'" + z + "'" + y + "'" + r by {
      Regroup4("'" + x + "?", y, "'", r);
      assert s1 == ("'" + x) + ['?'] + (y + "'" + r);
      ReplaceFirstAt("'" + x, y + "'" + r, '?', second);
      Regroup7("'" + x, "'", z, y, r);
    }
  }

  lemma Regroup4(a: string, b: string, c: string, d: string)
    ensures a + b + c + d == a + (b + c + d)
  {
  }

  lemma Regroup7(a: string, q: string, z: string, y: string, r: string)
    ensures a + (q + z + q) + (y + q + r) == a + q + z + q + y + q + r
  {
  }

  /** Two positional parameters are two first-'?' replacements in turn. */
  lemma PositionalTwo(q: string, v0: Param, v1: Param)
    requires Render(v0).Some? && Render(v1).Some?
    ensures RenderForLog(q, [Binding(Index(0), v0), Binding(Index(1), v1)])
      == ReplaceFirst(ReplaceFirst(q, '?', Render(v0).value), '?', Render(v1).value)
  {
    var ps := [Binding(Index(0), v0), Binding(Index(1), v1)];
    assert Indexed(ps);
    assert ps[1..][0] == ps[1] && ps[1..][1..] == [];
    var s1 := Step(q, ps[0], true);
    assert Fold(q, ps, true) == Fold(s1, ps[1..], true);
    assert Fold(s1, ps[1..], true) == Fold(Step(s1, ps[1], true), [], true);
  }

  // ---------------------------------------------------------------------
  // Named mode

  /**
   * The token gives back its key: a name that already starts with ':' is
   * kept as it is, any other name follows the added ':', and an integer key
   * follows it in decimal.
   */
  lemma TokenKeepsKey(k: Key)
    ensures k.Name? && k.name != "" && k.name[0] == ':' ==> Token(k) == k.name
    ensures k.Name? && (k.name == "" || k.name[0] != ':') ==> Token(k)[1..] == k.name
    ensures k.Index? ==> ParseInt(Token(k)[1..]) == k.i
  {
    if k.Index? {
      assert Token(k)[1..] == IntToString(k.i);
      ParseIntToString(k.i);
    }
  }

  lemma TokenIdempotent(k: Key)
    ensures Token(Name(Token(k))) == Token(k)
  {
  }

  /** Every key with its leading ':' written out. */
  function Prefixed(ps: seq<Binding>): seq<Binding> {
    seq(|ps|, i requires 0 <= i < |ps| => Binding(Name(Token(ps[i].key)), ps[i].value))
  }

  lemma {:induction false} FoldNamedPrefixed(sql: string, ps: seq<Binding>)
    ensures Fold(sql, ps, false) == Fold(sql, Prefixed(ps), false)
    decreases |ps|
  {
    if ps != [] {
      TokenIdempotent(ps[0].key);
      assert Step(sql, ps[0], false) == Step(sql, Prefixed(ps)[0], false);
      assert Prefixed(ps)[1..] == Prefixed(ps[1..]);
      FoldNamedPrefixed(Step(sql, ps[0], false), ps[1..]);
    }
  }

  /** In named mode a key given without its ':' behaves as the key with it. */
  lemma NamedColonAdded(q: string, ps: seq<Binding>)
    requires !Indexed(ps)
    ensures RenderForLog(q, ps) == RenderForLog(q, Prefixed(ps))
  {
    if ps != [] {
      assert !Indexed(Prefixed(ps)) by { assert Prefixed(ps)[0].key.Name?; }
      FoldNamedPrefixed(q, ps);
    }
  }

  /**
   * In named mode one entry rewrites every occurrence of its token, so the
   * text is left as it was exactly when the token does not occur (or the
   * value renders as the token itself, or is a skipped object).
   */
  lemma NamedSingle(q: string, n: string, v: Param)
    ensures Render(v).Some? ==>
      RenderForLog(q, [Binding(Name(n), v)]) == ReplaceAll(q, Token(Name(n)), Render(v).value)
    ensures RenderForLog(q, [Binding(Name(n), v)]) == q <==>
      Render(v).None? || FirstIndex(q, Token(Name(n))).None? || Render(v).value == Token(Name(n))
  {
    var ps := [Binding(Name(n), v)];
    assert ps[0].key != Index(0);
    assert ps[1..] == [];
    assert RenderForLog(q, ps) == Fold(Step(q, ps[0], false), [], false);
    if Render(v).Some? {
      ReplaceAllUnchanged(q, Token(Name(n)), Render(v).value);
    }
  }

  /**
   * The token of key `n` is matched wherever it starts, also at the head
   * of a longer token: `:id` is replaced inside `:idx`.
   */
  lemma TokenMatchesInsideLongerToken(n: string, w: string, v: Param)
    requires n != "" && n[0] != ':' && Render(v).Some?
    ensures RenderForLog(":" + n + w, [Binding(Name(n), v)])
      == Render(v).value + ReplaceAll(w, ":" + n, Render(v).value)
  {
    var tok := ":" + n;
    assert Token(Name(n)) == tok;
    ReplaceAllAtHead(tok, w, Render(v).value);
    NamedSingle(tok + w, n, v);
  }

  // ---------------------------------------------------------------------
  // The renderings can be read back

  /** The 'Y-m-d H:i:s' text has its fixed layout and gives back every field. */
  lemma FormatDateRoundTrip(d: DateTime)
    requires 0 <= d.year < 10000 && d.month < 100 && d.day < 100
    requires d.hour < 100 && d.minute < 100 && d.second < 100
    ensures var s := FormatDate(d);
      |s| == 19 && s[4] == '-' && s[7] == '-' && s[10] == ' ' && s[13] == ':' && s[16] == ':' &&
      ParseNat(s[0..4]) == d.year && ParseNat(s[5..7]) == d.month && ParseNat(s[8..10]) == d.day &&
      ParseNat(s[11..13]) == d.hour && ParseNat(s[14..16]) == d.minute && ParseNat(s[17..19]) == d.second
  {
    PadFacts(d.year, 4);
    PadFacts(d.month, 2);
    PadFacts(d.day, 2);
    PadFacts(d.hour, 2);
    PadFacts(d.minute, 2);
    PadFacts(d.second, 2);
    DateLayout(Pad(d.year, 4), Pad(d.month, 2), Pad(d.day, 2), Pad(d.hour, 2), Pad(d.minute, 2), Pad(d.second, 2));
  }

  /** Where each field of the 'Y-m-d H:i:s' text sits, for fields of width 4 and 2. */
  lemma DateLayout(y: string, mo: string, da: string, h: string, mi: string, se: string)
    requires |y| == 4 && |mo| == 2 && |da| == 2 && |h| == 2 && |mi| == 2 && |se| == 2
    ensures var s := y + ("-" + (mo + ("-" + (da + (" " + (h + (":" + (mi + (":" + se)))))))));
      |s| == 19 && s[4] == '-' && s[7] == '-' && s[10] == ' ' && s[13] == ':' && s[16] == ':' &&
      s[0..4] == y && s[5..7] == mo && s[8..10] == da && s[11..13] == h && s[14..16] == mi && s[17..19] == se
  {
    var t6 := ":" + se;
    var t5 := mi + t6;
    var t4 := ":" + t5;
    var t3 := h + t4;
    var t2 := " " + t3;
    var t1 := da + t2;
    var u2 := "-" + t1;
    var u1 := mo + u2;
    var u0 := "-" + u1;
    var s := y + u0;
    assert s[0..] == y + u0;
    SliceOf(s, 0, y, u0);
    SliceOf(s, 4, "-", u1);
    SliceOf(s, 5, mo, u2);
    SliceOf(s, 7, "-", t1);
    SliceOf(s, 8, da, t2);
    SliceOf(s, 10, " ", t3);
    SliceOf(s, 11, h, t4);
    SliceOf(s, 13, ":", t5);
    SliceOf(s, 14, mi, t6);
    SliceOf(s, 16, ":", se);
    SliceOf(s, 17, se, "");
  }

  /** Reading `x` off the front of `s[i..]`. */
  lemma SliceOf(s: string, i: nat, x: string, rest: string)
    requires i <= |s| && s[i..] == x + rest
    ensures i + |x| <= |s| && s[i..i + |x|] == x && s[i + |x|..] == rest
  {
    assert s[i..i + |x|] == s[i..][..|x|];
    assert s[i + |x|..] == s[i..][|x|..];
  }

  /** An array is comma-joined, so explode(',') gives it back when no item holds a comma. */
  lemma ArrayRoundTrip(xs: seq<string>)
    requires |xs| >= 1 && forall i | 0 <= i < |xs| :: ',' !in xs[i]
    ensures Split(Render(Arr(xs)).value, ',') == xs
  {
    SplitJoin(xs, ',');
  }

  /** An integer is written in decimal and reads back as itself. */
  lemma IntRoundTrip(i: int)
    ensures ParseInt(Render(Int(i)).value) == i
  {
    ParseIntToString(i);
  }
}
