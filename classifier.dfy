/** The filename classifier: the grammar of authored migration sources
      ID "000000_" Name [ "." Dialect ] "." ("up" | "down") ".sql"
    where ID is 14 ASCII digits, Name is one or more characters other than '.',
    and Dialect is one or more lower-case ASCII letters or digits. */
module Classifier {
  import opened Errors

  /** The dialect of a migration that applies to every dialect without its own file. */
  const GenericDialect: string := "any"

  /** One authored source file, classified. */
  datatype Migration = Migration(path: string, id: string, name: string, dialect: string, direction: string)

  /** The four submatches of the grammar: the ID, the name, the optional dialect
      segment with its leading dot (empty when absent) and the direction. */
  datatype Submatches = Submatches(id: string, name: string, segment: string, direction: string)

  predicate IsDigit(c: char) { '0' <= c <= '9' }

  predicate IsDialectChar(c: char) { 'a' <= c <= 'z' || '0' <= c <= '9' }

  predicate AllDigits(s: string) { forall i :: 0 <= i < |s| ==> IsDigit(s[i]) }

  predicate AllDialectChars(s: string) { forall i :: 0 <= i < |s| ==> IsDialectChar(s[i]) }

  predicate DotFree(s: string) { forall i :: 0 <= i < |s| ==> s[i] != '.' }

  predicate IsDirection(d: string) { d == "up" || d == "down" }

  /** A dialect segment is absent, or a dot followed by at least one dialect character. */
  predicate IsSegment(seg: string) {
    seg == "" || (|seg| > 1 && seg[0] == '.' && AllDialectChars(seg[1..]))
  }

  /** The parts of a filename that the grammar accepts. */
  predicate WellFormedParts(id: string, name: string, seg: string, dir: string) {
    |id| == 14 && AllDigits(id) && name != "" && DotFree(name) && IsSegment(seg) && IsDirection(dir)
  }

  /** The filename that the grammar describes for the given parts. */
  function SourceFileName(id: string, name: string, seg: string, dir: string): string {
    id + "000000_" + name + seg + "." + dir + ".sql"
  }

  /** The set of names the grammar matches, stated independently of the parser. */
  ghost predicate InGrammar(f: string) {
    exists id, name, seg, dir :: WellFormedParts(id, name, seg, dir) && f == SourceFileName(id, name, seg, dir)
  }

  /** Index of the first '.' in s, or |s| when s has none. */
  function DotIndex(s: string): (k: nat)
    ensures k <= |s|
    ensures DotFree(s[..k])
    ensures k < |s| ==> s[k] == '.'
  {
    if s == [] || s[0] == '.' then 0
    else
      var k' := DotIndex(s[1..]);
      assert s[..k' + 1] == [s[0]] + s[1..][..k'];
      k' + 1
  }

  /** Matches what follows the name: `.up.sql`, `.down.sql`, or `.X.up.sql` / `.X.down.sql`,
      returning the dialect segment (with its dot, or empty) and the direction. */
  function MatchTail(tail: string): Option<(string, string)> {
    if tail == ".up.sql" then Some(("", "up"))
    else if tail == ".down.sql" then Some(("", "down"))
    else if tail == [] || tail[0] != '.' then None
    else
      var t := tail[1..];
      var j := DotIndex(t);
      if j == 0 || !AllDialectChars(t[..j]) then None
      else if t[j..] == ".up.sql" then Some((tail[..j + 1], "up"))
      else if t[j..] == ".down.sql" then Some((tail[..j + 1], "down"))
      else None
  }

  /** The anchored grammar applied to a whole filename (the compiled pattern `mrx`). */
  function MatchGrammar(f: string): Option<Submatches> {
    if |f| < 21 || !AllDigits(f[..14]) || f[14..20] != "000000" || f[20] != '_' then None
    else
      var rest := f[21..];
      var k := DotIndex(rest);
      if k == 0 then None
      else match MatchTail(rest[k..])
        case None => None
        case Some(st) => Some(Submatches(f[..14], rest[..k], st.0, st.1))
  }

  /** The dialect recorded for a segment: the generic dialect when it is absent,
      otherwise the segment without its leading dot. */
  function DialectOf(seg: string): string {
    if seg == "" then GenericDialect else seg[1..]
  }

  /** Classifies one filename (parseMigration). The record keeps the name as its path. */
  function ParseMigration(f: string): (r: Result<Migration>)
    ensures r.Err? ==> r.error == ParseError(f)
    ensures r.Ok? ==> r.value.path == f
  {
    match MatchGrammar(f)
    case None => Err(ParseError(f))
    case Some(sm) => Ok(Migration(f, sm.id, sm.name, DialectOf(sm.segment), sm.direction))
  }

  // ---------------------------------------------------------------------------
  // The matcher agrees with the grammar.

  lemma {:induction false} DotIndexAfter(name: string, tail: string)
    requires DotFree(name)
    requires tail != [] && tail[0] == '.'
    ensures DotIndex(name + tail) == |name|
  {
    if name != [] {
      assert (name + tail)[1..] == name[1..] + tail;
      DotIndexAfter(name[1..], tail);
    }
  }

  lemma MatchTailSound(tail: string, seg: string, dir: string)
    requires MatchTail(tail) == Some((seg, dir))
    ensures IsSegment(seg) && IsDirection(dir)
    ensures tail == seg + "." + dir + ".sql"
  {
    if tail != ".up.sql" && tail != ".down.sql" {
      var t := tail[1..];
      var j := DotIndex(t);
      assert seg == tail[..j + 1];
      assert seg[1..] == t[..j];
      assert tail == tail[..j + 1] + t[j..];
    }
  }

  lemma MatchTailComplete(seg: string, dir: string)
    requires IsSegment(seg) && IsDirection(dir)
    ensures MatchTail(seg + "." + dir + ".sql") == Some((seg, dir))
  {
    if seg != "" {
      var x := seg[1..];
      assert seg == "." + x;
      MatchTailWithSegment(x, dir);
      assert seg + "." + dir + ".sql" == "." + x + "." + dir + ".sql";
    }
  }

  lemma MatchTailWithSegment(x: string, dir: string)
    requires x != "" && AllDialectChars(x) && IsDirection(dir)
    ensures MatchTail("." + x + "." + dir + ".sql") == Some(("." + x, dir))
  {
    var tail := "." + x + "." + dir + ".sql";
    var rest := "." + dir + ".sql";
    assert DotFree(x) by {
      forall i | 0 <= i < |x| ensures x[i] != '.' { assert IsDialectChar(x[i]); }
    }
    TailWithSegment(x, dir);
    var t := tail[1..];
    assert t == x + rest;
    DotIndexAfter(x, rest);
    assert t[..|x|] == x;
    assert t[|x|..] == rest;
    assert tail[..|x| + 1] == "." + x;
  }

  /** A tail with a dialect segment is not one of the two segment-free tails. */
  lemma TailWithSegment(x: string, dir: string)
    requires x != "" && DotFree(x) && IsDirection(dir)
    ensures var tail := "." + x + "." + dir + ".sql";
      tail != ".up.sql" && tail != ".down.sql"
  {
    var tail := "." + x + "." + dir + ".sql";
    assert tail[1 + |x|] == '.';
    if dir == "up" {
      assert |tail| == 8 + |x|;
      if |x| == 1 { assert tail[2] == '.'; }
    } else {
      assert |tail| == 10 + |x|;
    }
  }

  lemma SourceFileNameParts(id: string, name: string, seg: string, dir: string)
    ensures SourceFileName(id, name, seg, dir) == (id + "000000_") + (name + (seg + "." + dir + ".sql"))
  {
  }

  /** Whatever the matcher accepts has well-formed parts and is exactly the name they describe. */
  lemma MatchGrammarSound(f: string)
    requires MatchGrammar(f).Some?
    ensures var sm := MatchGrammar(f).value;
      WellFormedParts(sm.id, sm.name, sm.segment, sm.direction)
      && f == SourceFileName(sm.id, sm.name, sm.segment, sm.direction)
  {
    var sm := MatchGrammar(f).value;
    var rest := f[21..];
    var k := DotIndex(rest);
    var tail := rest[k..];
    MatchTailSound(tail, sm.segment, sm.direction);
    assert f[..21] == sm.id + "000000_";
    assert f == f[..21] + rest;
    assert rest == sm.name + tail;
    SourceFileNameParts(sm.id, sm.name, sm.segment, sm.direction);
  }

  /** Every name the grammar describes is matched, with exactly its parts. */
  lemma MatchGrammarComplete(id: string, name: string, seg: string, dir: string)
    requires WellFormedParts(id, name, seg, dir)
    ensures MatchGrammar(SourceFileName(id, name, seg, dir)) == Some(Submatches(id, name, seg, dir))
  {
    var f := SourceFileName(id, name, seg, dir);
    var tail := seg + "." + dir + ".sql";
    assert f == id + "000000_" + (name + tail);
    assert f[..14] == id;
    assert f[14..20] == "000000";
    assert f[20] == '_';
    var rest := f[21..];
    assert rest == name + tail;
    assert tail[0] == '.';
    DotIndexAfter(name, tail);
    assert rest[..|name|] == name;
    assert rest[|name|..] == tail;
    MatchTailComplete(seg, dir);
  }

  // ---------------------------------------------------------------------------
  // Properties of the classifier.

  /** On success the record reassembles into the filename it came from. The reassembly
      omits the dialect segment exactly when the dialect is generic, except that an
      explicit `.any` segment is also classified as generic. */
  lemma ParseMigrationRoundTrip(f: string)
    requires ParseMigration(f).Ok?
    ensures var m := ParseMigration(f).value;
      && m.path == f
      && |m.id| == 14 && AllDigits(m.id)
      && m.name != "" && DotFree(m.name)
      && IsDirection(m.direction)
      && (m.dialect != GenericDialect ==>
            m.dialect != "" && AllDialectChars(m.dialect)
            && f == SourceFileName(m.id, m.name, "." + m.dialect, m.direction))
      && (m.dialect == GenericDialect ==>
            f == SourceFileName(m.id, m.name, "", m.direction)
            || f == SourceFileName(m.id, m.name, ".any", m.direction))
  {
    MatchGrammarSound(f);
    var sm := MatchGrammar(f).value;
    SegmentDialect(sm.segment);
  }

  /** A segment is recovered from the dialect recorded for it, apart from an explicit generic one. */
  lemma SegmentDialect(seg: string)
    requires IsSegment(seg)
    ensures seg == "" ==> DialectOf(seg) == GenericDialect
    ensures seg != "" ==> seg == "." + DialectOf(seg) && DialectOf(seg) != "" && AllDialectChars(DialectOf(seg))
    ensures DialectOf(seg) == GenericDialect ==> seg == "" || seg == ".any"
  {
  }

  /** The classifier succeeds exactly on the names of the grammar; otherwise it
      reports that name as a parse error. */
  lemma ParseMigrationAcceptsGrammar(f: string)
    ensures ParseMigration(f).Ok? <==> InGrammar(f)
    ensures !InGrammar(f) ==> ParseMigration(f) == Err(ParseError(f))
  {
    if ParseMigration(f).Ok? {
      MatchGrammarSound(f);
      var sm := MatchGrammar(f).value;
      assert WellFormedParts(sm.id, sm.name, sm.segment, sm.direction)
        && f == SourceFileName(sm.id, sm.name, sm.segment, sm.direction);
    }
    if InGrammar(f) {
      var id, name, seg, dir :| WellFormedParts(id, name, seg, dir) && f == SourceFileName(id, name, seg, dir);
      MatchGrammarComplete(id, name, seg, dir);
    }
  }

  /** A name built from well-formed parts is classified into exactly those parts. */
  lemma ParseMigrationOfParts(id: string, name: string, seg: string, dir: string)
    requires WellFormedParts(id, name, seg, dir)
    ensures var f := SourceFileName(id, name, seg, dir);
      ParseMigration(f) == Ok(Migration(f, id, name, DialectOf(seg), dir))
  {
    MatchGrammarComplete(id, name, seg, dir);
  }

  /** An explicit `.any` segment and an absent segment classify alike, apart from the path. */
  lemma ExplicitAnySegmentIsGeneric(id: string, name: string, dir: string)
    requires WellFormedParts(id, name, "", dir)
    ensures var m1 := ParseMigration(SourceFileName(id, name, "", dir));
      var m2 := ParseMigration(SourceFileName(id, name, ".any", dir));
      && m1.Ok? && m2.Ok?
      && m1.value.dialect == m2.value.dialect == GenericDialect
      && m1.value.path != m2.value.path
  {
    ParseMigrationOfParts(id, name, "", dir);
    assert AllDialectChars(".any"[1..]);
    ParseMigrationOfParts(id, name, ".any", dir);
    assert |SourceFileName(id, name, "", dir)| != |SourceFileName(id, name, ".any", dir)|;
  }
}
