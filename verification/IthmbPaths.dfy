/** Names of the numbered shard files that hold artwork frames. */
module IthmbPaths {
  import opened Outcomes
  import opened Text

  const SUFFIX := ".ithmb"

  function Prefix(formatId: nat): string {
    "F" + Decimal(formatId) + "_"
  }

  /** `ithmb_filename(format_id, index)` */
  function IthmbFilename(formatId: nat, index: nat): string {
    Prefix(formatId) + Decimal(index) + SUFFIX
  }

  /** `normalize_ithmb_filename(format_id, filename)` */
  function Normalize(formatId: nat, filename: string): string {
    var name := ReplaceAll(Strip(filename), '\\', '/');
    var base := AfterLast(AfterLast(name, ':'), '/');
    if base == "" then IthmbFilename(formatId, 1) else base
  }

  /** Digits with single underscores between them, as `int` accepts them. */
  predicate IntLiteral(s: string) {
    && s != "" && s[0] != '_' && s[|s| - 1] != '_'
    && (forall i | 0 <= i < |s| :: '0' <= s[i] <= '9' || s[i] == '_')
    && (forall i, j | 0 <= i < |s| && 0 <= j < |s| && j == i + 1 :: s[i] != '_' || s[j] != '_')
  }

  function WithoutUnderscores(s: string): (r: string)
    requires forall i | 0 <= i < |s| :: '0' <= s[i] <= '9' || s[i] == '_'
    ensures AllDigits(r)
    ensures AllDigits(s) ==> r == s
  {
    if s == "" then ""
    else WithoutUnderscores(s[..|s| - 1]) + (if s[|s| - 1] == '_' then "" else [s[|s| - 1]])
  }

  /** `int(s)`; None when it raises ValueError. */
  function ParseInt(s: string): Option<int> {
    var t := Strip(s);
    var signed := t != "" && (t[0] == '+' || t[0] == '-');
    var body := if signed then t[1..] else t;
    if !IntLiteral(body) then None
    else
      var v: int := DigitsValue(WithoutUnderscores(body));
      Some(if signed && t[0] == '-' then -v else v)
  }

  /** Digits are a number, with or without a sign. */
  lemma SignedNumbers(d: string)
    requires d != "" && AllDigits(d)
    ensures var n: int := DigitsValue(d); ParseInt(d) == Some(n) && ParseInt("+" + d) == Some(n) && ParseInt("-" + d) == Some(-n)
  {
    NumberOf(d, d);
    hide ParseInt;
    hide AllDigits;
    hide DigitsValue;
    SignedNumber('+', d);
    SignedNumber('-', d);
  }

  lemma SignedNumber(sign: char, d: string)
    requires d != "" && AllDigits(d) && (sign == '+' || sign == '-')
    ensures var n: int := DigitsValue(d); ParseInt([sign] + d) == Some(if sign == '-' then -n else n)
  {
    hide Strip;
    hide IntLiteral;
    hide DigitsValue;
    var t := [sign] + d;
    SignedClean(sign, d);
    DigitsLiteral(d);
    assert t[1..] == d;
  }

  lemma SignedClean(sign: char, d: string)
    requires d != "" && AllDigits(d) && (sign == '+' || sign == '-')
    ensures Strip([sign] + d) == [sign] + d
  {
    Clean([sign] + d);
  }

  lemma DigitsLiteral(d: string)
    requires d != "" && AllDigits(d)
    ensures IntLiteral(d)
  {
  }

  lemma Clean(s: string)
    requires s != "" && !IsSpace(s[0]) && !IsSpace(s[|s| - 1])
    ensures Strip(s) == s
  {
  }

  /** Single underscores between digits make no difference. */
  lemma UnderscoredNumber(d: string, e: string)
    requires d != "" && e != "" && AllDigits(d) && AllDigits(e)
    ensures ParseInt(d + "_" + e) == ParseInt(d + e) == Some(DigitsValue(d + e))
  {
    UnderscoresGone(d, e);
    NumberOf(d + "_" + e, d + e);
    NumberOf(d + e, d + e);
  }

  lemma NotNumber(s: string)
    requires s != "" && !IsSpace(s[0]) && !IsSpace(s[|s| - 1]) && s[0] != '+' && s[0] != '-' && !IntLiteral(s)
    ensures ParseInt(s) == None
  {
    Clean(s);
    hide Strip;
    hide IsSpace;
    hide IntLiteral;
  }

  /** Underscores elsewhere, or two of them, are refused. */
  lemma MisplacedUnderscore(d: string, e: string)
    requires d != "" && e != "" && AllDigits(d) && AllDigits(e)
    ensures ParseInt(d + "__" + e) == None && ParseInt("_" + d) == None && ParseInt(d + "_") == None
  {
    hide ParseInt;
    hide Strip;
    TwoUnderscores(d, e);
    NotNumber(d + "__" + e);
    NotNumber("_" + d);
    NotNumber(d + "_");
  }

  lemma TwoUnderscores(d: string, e: string)
    ensures !IntLiteral(d + "__" + e)
  {
    var twice := d + "__" + e;
    assert twice[|d|] == '_' && twice[|d| + 1] == '_';
  }

  lemma NumberOf(s: string, digits: string)
    requires IntLiteral(s) && AllDigits(digits) && WithoutUnderscores(s) == digits
    ensures ParseInt(s) == Some(DigitsValue(digits))
  {
    Clean(s);
    hide Strip;
    hide IsSpace;
  }

  predicate Digitlike(s: string) {
    forall i | 0 <= i < |s| :: '0' <= s[i] <= '9' || s[i] == '_'
  }

  lemma LastGone(s: string, c: char)
    requires Digitlike(s) && ('0' <= c <= '9' || c == '_')
    ensures Digitlike(s + [c]) && WithoutUnderscores(s + [c]) == WithoutUnderscores(s) + (if c == '_' then "" else [c])
  {
    assert (s + [c])[..|s|] == s;
  }

  lemma {:induction false} UnderscoresGone(d: string, e: string)
    requires AllDigits(d) && AllDigits(e)
    ensures Digitlike(d + "_" + e) && WithoutUnderscores(d + "_" + e) == d + e
  {
    hide WithoutUnderscores;
    LastGone(d, '_');
    if e == "" {
      assert d + "_" + e == d + ['_'] && d + "" == d && d + e == d;
    } else {
      var front, c := e[..|e| - 1], e[|e| - 1];
      UnderscoresGone(d, front);
      LastGone(d + "_" + front, c);
      assert d + "_" + e == d + "_" + front + [c];
      assert d + e == d + front + [c];
    }
  }

  predicate EndsWith(s: string, suffix: string) {
    |suffix| <= |s| && s[|s| - |suffix|..] == suffix
  }

  /** `_ithmb_file_index(filename, format_id)` */
  function FileIndex(filename: string, formatId: nat): Option<int> {
    var prefix := Prefix(formatId);
    if !(prefix <= filename) || !EndsWith(filename, SUFFIX) || |filename| < |prefix| + |SUFFIX| then None
    else ParseInt(filename[|prefix|..|filename| - |SUFFIX|])
  }

  /** Parsing the index of a shard name is the inverse of naming the shard. */
  lemma FileIndexInverts(formatId: nat, index: nat)
    ensures FileIndex(IthmbFilename(formatId, index), formatId) == Some(index)
  {
    hide AfterLast;
    hide StripLeft;
    hide StripRight;
    hide RStripNul;
    hide Decimal;
    var name := IthmbFilename(formatId, index);
    var p, d := Prefix(formatId), Decimal(index);
    assert name[..|p|] == p;
    assert name[|name| - |SUFFIX|..] == SUFFIX;
    assert name[|p|..|name| - |SUFFIX|] == d;
    Clean(d);
    DecimalValue(index);
  }

  lemma SplitAtMark(a: string, b: string, c: string, d: string, mark: char)
    requires mark !in a && mark !in c
    requires a + [mark] + b == c + [mark] + d
    ensures a == c && b == d
  {
    var s := a + [mark] + b;
    assert s[|a|] == mark && s[|c|] == mark;
    assert forall i | 0 <= i < |a| :: s[i] == a[i];
    assert forall i | 0 <= i < |c| :: s[i] == c[i];
    assert |a| == |c|;
    assert s[..|a|] == a && s[..|c|] == c;
    assert s[|a| + 1..] == b && s[|c| + 1..] == d;
  }

  /** Different shards have different names. */
  lemma FilenameInjective(f: nat, m: nat, g: nat, n: nat)
    requires IthmbFilename(f, m) == IthmbFilename(g, n)
    ensures f == g && m == n
  {
    hide AfterLast;
    hide StripLeft;
    hide StripRight;
    hide RStripNul;
    hide Decimal;
    var a, c := "F" + Decimal(f), "F" + Decimal(g);
    var b, d := Decimal(m) + SUFFIX, Decimal(n) + SUFFIX;
    assert IthmbFilename(f, m) == a + ['_'] + b;
    assert IthmbFilename(g, n) == c + ['_'] + d;
    SplitAtMark(a, b, c, d, '_');
    assert a[1..] == Decimal(f) && c[1..] == Decimal(g);
    assert b[..|b| - |SUFFIX|] == Decimal(m) && d[..|d| - |SUFFIX|] == Decimal(n);
    DecimalInjective(f, g);
    DecimalInjective(m, n);
  }

  /** A shard name is already normal. */
  lemma NormalizeShard(formatId: nat, g: nat, index: nat)
    ensures Normalize(formatId, IthmbFilename(g, index)) == IthmbFilename(g, index)
  {
    hide AfterLast;
    hide StripLeft;
    hide StripRight;
    hide RStripNul;
    hide Decimal;
    var name := IthmbFilename(g, index);
    assert name[0] == 'F' && name[|name| - 1] == 'b';
    Clean(name);
    assert forall i | 0 <= i < |name| :: name[i] != '\\' && name[i] != '/' && name[i] != ':' by {
      assert name == ("F" + Decimal(g) + "_" + Decimal(index)) + SUFFIX;
    }
    assert ReplaceAll(name, '\\', '/') == name;
  }

  /** What the writer stores for `filename`: it is normalised on the way into the
      location and again when the chunk is written. */
  function StoredName(formatId: nat, filename: string): string {
    Normalize(formatId, Normalize(formatId, filename))
  }

  /** What the reader makes of a stored name, which is written behind a colon. */
  function RecoveredName(formatId: nat, stored: string): string {
    Normalize(formatId, RStripNul(":" + stored))
  }

  /** A name that the reader gives back unchanged once its trailing NULs are gone. */
  predicate IsBase(name: string) {
    && name != "" && !IsSpace(name[0]) && !IsSpace(name[|name| - 1])
    && '\\' !in name && '/' !in name && ':' !in name
  }

  lemma StripClean(name: string, c: char)
    ensures c !in name ==> c !in Strip(name)
  {
    hide StripLeft;
    hide StripRight;
    SuffixFacts(StripLeft(name), name, c);
  }

  lemma NormalizeBase(formatId: nat, name: string)
    requires name != "" && '\\' !in name && '/' !in name && ':' !in name && !IsSpace(name[|name| - 1])
    ensures IsBase(Normalize(formatId, name))
  {
    hide AfterLast;
    hide StripLeft;
    hide StripRight;
    hide RStripNul;
    hide Decimal;
    var s := Strip(name);
    StripClean(name, '\\');
    StripClean(name, '/');
    StripClean(name, ':');
    assert ReplaceAll(s, '\\', '/') == s;
    ShardIsBase(formatId, 1);
  }

  lemma ShardIsBase(formatId: nat, index: nat)
    ensures IsBase(IthmbFilename(formatId, index))
  {
    hide AfterLast;
    hide StripLeft;
    hide StripRight;
    hide RStripNul;
    hide Decimal;
    var name := IthmbFilename(formatId, index);
    assert name[0] == 'F' && name[|name| - 1] == 'b';
    assert forall i | 0 <= i < |name| :: name[i] != '\\' && name[i] != '/' && name[i] != ':' by {
      assert name == ("F" + Decimal(formatId) + "_" + Decimal(index)) + SUFFIX;
    }
  }

  lemma BaseIsNormal(formatId: nat, name: string)
    requires IsBase(name)
    ensures Normalize(formatId, name) == name
  {
    hide AfterLast;
    hide StripLeft;
    hide StripRight;
    hide Decimal;
    Clean(name);
    assert ReplaceAll(name, '\\', '/') == name;
  }

  lemma NormalizeOnce(formatId: nat, filename: string)
    ensures var n := Normalize(formatId, filename);
            n != "" && '\\' !in n && '/' !in n && ':' !in n && !IsSpace(n[|n| - 1])
  {
    hide AfterLast;
    hide StripLeft;
    hide StripRight;
    hide RStripNul;
    hide Decimal;
    var s := Strip(filename);
    var r := ReplaceAll(s, '\\', '/');
    var a := AfterLast(r, ':');
    var b := AfterLast(a, '/');
    assert '\\' !in r by { assert forall i | 0 <= i < |r| :: r[i] != '\\'; }
    SuffixFacts(a, r, '\\');
    SuffixFacts(b, a, '\\');
    SuffixFacts(b, a, ':');
    ShardIsBase(formatId, 1);
    if b != "" {
      assert b[|b| - 1] == r[|r| - 1] && r[|r| - 1] == s[|s| - 1];
    }
  }

  lemma AfterColon(s: string)
    requires ':' !in s
    ensures AfterLast(":" + s, ':') == s
  {
    hide AfterLast;
    hide StripLeft;
    hide StripRight;
    hide RStripNul;
    hide Decimal;
    var w := ":" + s;
    var r := AfterLast(w, ':');
    assert w[0] == ':';
    if |r| == |w| {
      SuffixWhole(r, w);
      assert false;
    }
    assert forall i, j | 0 <= i < |s| && j == i + 1 :: w[j] == s[i];
    assert |r| == |s|;
    forall i | 0 <= i < |s| ensures r[i] == s[i] {
      assert w[i + 1] == s[i];
    }
  }

  lemma RecoverWhole(formatId: nat, stored: string)
    requires IsBase(stored)
    ensures Normalize(formatId, ":" + stored) == stored
  {
    hide AfterLast;
    hide StripLeft;
    hide StripRight;
    hide RStripNul;
    hide Decimal;
    var w := ":" + stored;
    Clean(w);
    assert forall i | 0 <= i < |stored| :: w[i + 1] == stored[i];
    assert ReplaceAll(w, '\\', '/') == w;
    AfterColon(stored);
  }

  lemma NormalizeShrinks(formatId: nat, y: string)
    ensures var n := Normalize(formatId, y); n == IthmbFilename(formatId, 1) || |n| < |y| || n == ReplaceAll(y, '\\', '/')
  {
    hide AfterLast;
    hide StripLeft;
    hide StripRight;
    hide RStripNul;
    hide Decimal;
    var l := StripLeft(y);
    var s := StripRight(l);
    var r := ReplaceAll(s, '\\', '/');
    var a := AfterLast(r, ':');
    var b := AfterLast(a, '/');
    if |b| == |y| {
      SuffixWhole(l, y);
      assert s == l;
      SuffixWhole(a, r);
      SuffixWhole(b, a);
    }
  }

  /** The reader recovers every name the writer stores, unless the name ends in NUL. */
  lemma NameRecovered(formatId: nat, filename: string)
    ensures var stored := StoredName(formatId, filename);
            stored != "" && (RecoveredName(formatId, stored) == stored <==> stored[|stored| - 1] != '\0')
  {
    hide AfterLast;
    hide StripLeft;
    hide StripRight;
    hide RStripNul;
    hide Decimal;
    hide Normalize;
    hide IthmbFilename;
    NormalizeOnce(formatId, filename);
    NormalizeBase(formatId, Normalize(formatId, filename));
    var stored := StoredName(formatId, filename);
    var w := ":" + stored;
    var y := RStripNul(w);
    if stored[|stored| - 1] != '\0' {
      RecoverWhole(formatId, stored);
    } else {
      assert w[|w| - 1] == '\0' && w[0] == ':';
      assert y != "" && y[0] == w[0];
      NormalizeOnce(formatId, y);
      NormalizeShrinks(formatId, y);
      RecoveredShorter(formatId, stored, y);
    }
  }

  lemma RecoveredShorter(formatId: nat, stored: string, y: string)
    requires stored != "" && stored[|stored| - 1] == '\0' && y != "" && y[0] == ':' && |y| <= |stored|
    requires ':' !in Normalize(formatId, y)
    requires var n := Normalize(formatId, y); n == IthmbFilename(formatId, 1) || |n| < |y| || n == ReplaceAll(y, '\\', '/')
    ensures Normalize(formatId, y) != stored
  {
    hide Normalize;
    hide Decimal;
    var d := IthmbFilename(formatId, 1);
    assert d[|d| - 1] == 'b';
    assert ReplaceAll(y, '\\', '/')[0] == ':';
  }
}
