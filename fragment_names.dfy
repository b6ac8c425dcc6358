/** Output filenames: the group's ID, the fragment index written as at least six decimal
    digits, the group's name, the dialect (left out for generic migrations) and the direction. */
module FragmentNames {
  import opened Classifier
  import opened Scanner

  /** The decimal digit for d. */
  function DigitChar(d: nat): (c: char)
    requires d < 10
    ensures IsDigit(c)
  {
    ('0' as int + d) as char
  }

  /** The value of a decimal digit. */
  function DigitValue(c: char): nat
    requires IsDigit(c)
  {
    c as int - '0' as int
  }

  /** n in decimal, without leading zeros. */
  function Decimal(n: nat): (s: string)
    ensures |s| >= 1 && AllDigits(s)
    decreases n
  {
    if n < 10 then [DigitChar(n)] else Decimal(n / 10) + [DigitChar(n % 10)]
  }

  /** The number a string of decimal digits denotes. */
  function DigitsValue(s: string): nat
    requires AllDigits(s)
  {
    if s == [] then 0 else DigitsValue(s[..|s| - 1]) * 10 + DigitValue(s[|s| - 1])
  }

  /** k zero digits. */
  function Zeros(k: nat): (s: string)
    ensures |s| == k && AllDigits(s)
  {
    if k == 0 then [] else Zeros(k - 1) + ['0']
  }

  /** The fragment index as the `%06d` verb prints it: decimal, padded with zeros on the left
      to six digits. */
  function Pad6(i: nat): string {
    var d := Decimal(i);
    if |d| < 6 then Zeros(6 - |d|) + d else d
  }

  function Pow10(k: nat): nat {
    if k == 0 then 1 else 10 * Pow10(k - 1)
  }

  /** The name of fragment i of migration m in group g (fragmentName). */
  function FragmentName(g: MigrationGroup, m: Migration, i: nat): string {
    if m.dialect == GenericDialect then
      g.id + Pad6(i) + "_" + g.name + "." + m.direction + ".sql"
    else
      g.id + Pad6(i) + "_" + g.name + "." + m.dialect + "." + m.direction + ".sql"
  }

  // ---------------------------------------------------------------------------
  // The index field.

  lemma {:induction false} DecimalValue(n: nat)
    ensures DigitsValue(Decimal(n)) == n
    decreases n
  {
    if n >= 10 {
      DecimalValue(n / 10);
      var s := Decimal(n);
      assert s[..|s| - 1] == Decimal(n / 10);
    }
  }

  /** Leading zeros do not change the value. */
  lemma {:induction false} ZerosValue(k: nat, s: string)
    requires AllDigits(s)
    ensures AllDigits(Zeros(k) + s) && DigitsValue(Zeros(k) + s) == DigitsValue(s)
    decreases |s|
  {
    if s == [] {
      assert Zeros(k) + s == Zeros(k);
      ZerosValueEmpty(k);
    } else {
      var t := Zeros(k) + s;
      assert t[..|t| - 1] == Zeros(k) + s[..|s| - 1];
      ZerosValue(k, s[..|s| - 1]);
    }
  }

  lemma {:induction false} ZerosValueEmpty(k: nat)
    ensures DigitsValue(Zeros(k)) == 0
  {
    if k > 0 {
      ZerosValueEmpty(k - 1);
      assert Zeros(k)[..k - 1] == Zeros(k - 1);
    }
  }

  /** A number below 10^k has at most k decimal digits. */
  lemma {:induction false} DecimalLength(n: nat, k: nat)
    requires 1 <= k && n < Pow10(k)
    ensures |Decimal(n)| <= k
    decreases n
  {
    if n >= 10 {
      DecimalLength(n / 10, k - 1);
    }
  }

  /** A positive number is written without a leading zero. */
  lemma {:induction false} DecimalLead(n: nat)
    ensures n >= 1 ==> Decimal(n)[0] != '0'
    decreases n
  {
    if n >= 10 {
      DecimalLead(n / 10);
      assert Decimal(n)[0] == Decimal(n / 10)[0];
    }
  }

  /** The index field is all digits, denotes i, and is at least six digits long; exactly six
      for an index below a million; longer only without a leading zero. */
  lemma Pad6Value(i: nat)
    ensures AllDigits(Pad6(i)) && DigitsValue(Pad6(i)) == i
    ensures |Pad6(i)| >= 6
    ensures i < 1000000 ==> |Pad6(i)| == 6
    ensures |Pad6(i)| > 6 ==> Pad6(i)[0] != '0'
  {
    var d := Decimal(i);
    DecimalValue(i);
    DecimalLead(i);
    if |d| < 6 {
      ZerosValue(6 - |d|, d);
    }
    if i < 1000000 {
      assert Pow10(6) == 1000000;
      DecimalLength(i, 6);
    }
  }

  /** Distinct indices give distinct index fields. */
  lemma Pad6Injective(i: nat, j: nat)
    requires Pad6(i) == Pad6(j)
    ensures i == j
  {
    Pad6Value(i);
    Pad6Value(j);
  }

  // ---------------------------------------------------------------------------
  // Distinct fragments have distinct names.

  /** Cutting two strings at the first occurrence of c, which neither a nor b contains. */
  lemma CutAt(a: string, x: string, b: string, y: string, c: char)
    requires c !in a && c !in b
    requires a + [c] + x == b + [c] + y
    ensures a == b && x == y
  {
    var s := a + [c] + x;
    assert forall i :: 0 <= i < |a| ==> s[i] == a[i] != c;
    assert forall i :: 0 <= i < |b| ==> s[i] == (b + [c] + y)[i] == b[i] != c;
    assert s[|a|] == c && (b + [c] + y)[|b|] == c;
    assert |a| == |b|;
    assert a == s[..|a|] == b;
    assert x == s[|a| + 1..] == y;
  }

  lemma {:induction false} DotFreeNotIn(s: string)
    requires DotFree(s)
    ensures '.' !in s
  {
  }

  lemma DigitsNoUnderscore(s: string)
    requires AllDigits(s)
    ensures '_' !in s
  {
  }

  /** What follows the group name and its dot: the dialect (when not generic) and the direction. */
  function NameTail(m: Migration): string {
    if m.dialect == GenericDialect then m.direction + ".sql" else m.dialect + "." + m.direction + ".sql"
  }

  lemma FragmentNameParts(g: MigrationGroup, m: Migration, i: nat)
    ensures FragmentName(g, m, i) == g.id + (Pad6(i) + ['_'] + (g.name + ['.'] + NameTail(m)))
  {
  }

  lemma CancelPrefix(a: string, x: string, y: string)
    requires a + x == a + y
    ensures x == y
  {
    assert x == (a + x)[|a|..];
  }

  /** The tail with its dots as single characters. */
  lemma TailShape(m: Migration)
    ensures NameTail(m) == if m.dialect == GenericDialect then m.direction + ['.'] + "sql"
      else m.dialect + ['.'] + (m.direction + ['.'] + "sql")
  {
    assert m.direction + ".sql" == m.direction + ['.'] + "sql";
    if m.dialect != GenericDialect {
      assert m.dialect + "." + m.direction + ".sql" == m.dialect + ['.'] + (m.direction + ".sql");
    }
  }

  /** The tails of two well-formed migrations agree only when their dialects and
      directions do. */
  lemma NameTailInjective(m1: Migration, m2: Migration)
    requires DotFree(m1.dialect) && DotFree(m2.dialect)
    requires IsDirection(m1.direction) && IsDirection(m2.direction)
    requires NameTail(m1) == NameTail(m2)
    ensures m1.dialect == m2.dialect && m1.direction == m2.direction
  {
    DotFreeNotIn(m1.dialect);
    DotFreeNotIn(m2.dialect);
    DotFreeNotIn(m1.direction);
    DotFreeNotIn(m2.direction);
    TailShape(m1);
    TailShape(m2);
    if m1.dialect == GenericDialect && m2.dialect == GenericDialect {
      CutAt(m1.direction, "sql", m2.direction, "sql", '.');
    } else if m1.dialect == GenericDialect {
      CutAt(m1.direction, "sql", m2.dialect, m2.direction + ['.'] + "sql", '.');
    } else if m2.dialect == GenericDialect {
      CutAt(m2.direction, "sql", m1.dialect, m1.direction + ['.'] + "sql", '.');
    } else {
      CutAt(m1.dialect, m1.direction + ['.'] + "sql", m2.dialect, m2.direction + ['.'] + "sql", '.');
      CutAt(m1.direction, "sql", m2.direction, "sql", '.');
    }
  }

  /** Within one group whose name has no dot, two fragments of migrations with well-formed
      dialects and directions share a name only when they have the same index, dialect and
      direction. */
  lemma FragmentNameInjective(g: MigrationGroup, m1: Migration, i: nat, m2: Migration, j: nat)
    requires DotFree(g.name)
    requires DotFree(m1.dialect) && DotFree(m2.dialect)
    requires IsDirection(m1.direction) && IsDirection(m2.direction)
    requires FragmentName(g, m1, i) == FragmentName(g, m2, j)
    ensures i == j && m1.dialect == m2.dialect && m1.direction == m2.direction
  {
    FragmentNameParts(g, m1, i);
    FragmentNameParts(g, m2, j);
    CancelPrefix(g.id, Pad6(i) + ['_'] + (g.name + ['.'] + NameTail(m1)), Pad6(j) + ['_'] + (g.name + ['.'] + NameTail(m2)));
    Pad6Value(i);
    Pad6Value(j);
    DigitsNoUnderscore(Pad6(i));
    DigitsNoUnderscore(Pad6(j));
    CutAt(Pad6(i), g.name + ['.'] + NameTail(m1), Pad6(j), g.name + ['.'] + NameTail(m2), '_');
    DotFreeNotIn(g.name);
    CutAt(g.name, NameTail(m1), g.name, NameTail(m2), '.');
    NameTailInjective(m1, m2);
  }

  // ---------------------------------------------------------------------------
  // Relation to the source filenames.

  /** Fragment 0 is named like a source file with the group's ID and name, the migration's
      direction, and a dialect segment exactly when the dialect is not generic. */
  lemma FirstFragmentName(g: MigrationGroup, m: Migration)
    ensures FragmentName(g, m, 0)
      == SourceFileName(g.id, g.name, if m.dialect == GenericDialect then "" else "." + m.dialect, m.direction)
  {
    Pad6Zero();
    var p := g.id + "000000_" + g.name;
    if m.dialect == GenericDialect {
      assert FragmentName(g, m, 0) == p + "." + m.direction + ".sql";
      assert SourceFileName(g.id, g.name, "", m.direction) == p + "." + m.direction + ".sql";
    } else {
      assert FragmentName(g, m, 0) == p + ("." + m.dialect) + "." + m.direction + ".sql";
    }
  }

  lemma Pad6Zero()
    ensures Pad6(0) == "000000"
  {
    assert Zeros(5) == "00000" by {
      assert Zeros(1) == "0";
      assert Zeros(2) == "00";
      assert Zeros(3) == "000";
      assert Zeros(4) == "0000";
    }
  }

  /** Fragment 0 of a migration keeps the name of its source, provided the group has the
      migration's ID and name and the source did not spell the generic dialect out. */
  lemma FirstFragmentKeepsSourceName(g: MigrationGroup, f: string)
    requires ParseMigration(f).Ok?
    requires g.id == ParseMigration(f).value.id && g.name == ParseMigration(f).value.name
    requires ParseMigration(f).value.dialect == GenericDialect ==>
      f == SourceFileName(g.id, g.name, "", ParseMigration(f).value.direction)
    ensures FragmentName(g, ParseMigration(f).value, 0) == f
  {
    ParseMigrationRoundTrip(f);
    FirstFragmentName(g, ParseMigration(f).value);
  }

  lemma {:induction false} AllZerosValue(s: string)
    requires forall k :: 0 <= k < |s| ==> s[k] == '0'
    ensures AllDigits(s) && DigitsValue(s) == 0
  {
    if s != [] {
      AllZerosValue(s[..|s| - 1]);
    }
  }

  /** Fragments after the first are outside the source grammar: their index field is not
      six zeros followed by the underscore. */
  lemma LaterFragmentsOutsideGrammar(g: MigrationGroup, m: Migration, i: nat)
    requires |g.id| == 14
    requires i > 0
    ensures ParseMigration(FragmentName(g, m, i)).Err?
  {
    var f := FragmentName(g, m, i);
    FragmentNameParts(g, m, i);
    Pad6Value(i);
    var p := Pad6(i);
    assert f == g.id + (p + ['_'] + (g.name + ['.'] + NameTail(m)));
    if |p| == 6 {
      assert f[14..20] == p;
      if p == "000000" {
        AllZerosValue(p);
      }
    } else {
      assert f[20] == p[6];
      assert IsDigit(p[6]);
    }
  }
}
