/** The fragment splitter: one migration source becomes the header-prefixed pieces
    between its `--split` markers. */
module Splitter {
  import opened Errors

  /** The literal token that separates independently applied statements. */
  const SplitMarker: string := "--split"

  /** The opening line of a real fragment and the prefix of the line naming the command. */
  const HeaderText: string := "-- Migration generated by the command below; DO NOT EDIT.\n-- "

  /** The opening line of a padding fragment and the prefix of the line naming the command. */
  const BlankText: string :=
    "-- This is a blank migration. It is generated to ensure that all dialects are represented in the migration files.\n-- "

  /** The comment that opens every real fragment; `cmdline` is the invoking command line
      (the program arguments joined with single spaces). */
  function FragmentHeader(cmdline: string): string {
    HeaderText + cmdline + "\n"
  }

  /** The whole content of a padding fragment. */
  function BlankFragment(cmdline: string): string {
    BlankText + cmdline + "\n"
  }

  /** sep occurs in s starting at position i. */
  predicate OccursAt(s: string, sep: string, i: int) {
    0 <= i && i + |sep| <= |s| && s[i..i + |sep|] == sep
  }

  /** sep occurs nowhere in s. */
  predicate Free(s: string, sep: string) {
    forall i :: 0 <= i <= |s| ==> !OccursAt(s, sep, i)
  }

  /** The pieces of s around its leftmost non-overlapping occurrences of sep, as Go's
      `bytes.Split` returns them for a non-empty separator. */
  function Split(s: string, sep: string): (r: seq<string>)
    requires sep != []
    ensures |r| >= 1
    decreases |s|
  {
    if |s| < |sep| then [s]
    else if s[..|sep|] == sep then [""] + Split(s[|sep|..], sep)
    else
      var rest := Split(s[1..], sep);
      [[s[0]] + rest[0]] + rest[1..]
  }

  /** The number of leftmost non-overlapping occurrences of sep in s. */
  function Occurrences(s: string, sep: string): nat
    requires sep != []
    decreases |s|
  {
    if |s| < |sep| then 0
    else if s[..|sep|] == sep then 1 + Occurrences(s[|sep|..], sep)
    else Occurrences(s[1..], sep)
  }

  /** The pieces joined back together with sep between neighbours. */
  function Join(pieces: seq<string>, sep: string): string {
    if pieces == [] then ""
    else if |pieces| == 1 then pieces[0]
    else pieces[0] + sep + Join(pieces[1..], sep)
  }

  /** The fragments of one source: every piece prefixed with the header. */
  function Fragments(source: string, cmdline: string): seq<string> {
    var chunks := Split(source, SplitMarker);
    seq(|chunks|, i requires 0 <= i < |chunks| => FragmentHeader(cmdline) + chunks[i])
  }

  /** Every fragment with the first |header| characters removed. */
  function StripHeaders(frags: seq<string>, header: string): seq<string> {
    seq(|frags|, i requires 0 <= i < |frags| => if |header| <= |frags[i]| then frags[i][|header|..] else frags[i])
  }

  /** Splits one migration source (generateMigrationFragments): the pieces are rewritten in
      place, each prefixed with the header. The source's guard against an empty piece list
      is kept; Split never yields one. */
  method GenerateMigrationFragments(path: string, source: string, cmdline: string) returns (r: Result<seq<string>>)
    ensures r == Ok(Fragments(source, cmdline))
  {
    var chunks := Split(source, SplitMarker);
    if |chunks| < 1 {
      return Err(NoChunks(path));
    }
    ghost var pieces := chunks;
    var header := FragmentHeader(cmdline);
    for i := 0 to |chunks|
      invariant |chunks| == |pieces|
      invariant forall j :: 0 <= j < i ==> chunks[j] == header + pieces[j]
      invariant forall j :: i <= j < |chunks| ==> chunks[j] == pieces[j]
    {
      chunks := chunks[i := header + chunks[i]];
    }
    assert chunks == Fragments(source, cmdline);
    return Ok(chunks);
  }

  // ---------------------------------------------------------------------------
  // Properties of the split.

  /** Joining the pieces with the separator gives back the source. */
  lemma {:induction false} JoinSplit(s: string, sep: string)
    requires sep != []
    ensures Join(Split(s, sep), sep) == s
    decreases |s|
  {
    if |s| < |sep| {
    } else if s[..|sep|] == sep {
      var rest := Split(s[|sep|..], sep);
      JoinSplit(s[|sep|..], sep);
      assert Split(s, sep) == [""] + rest;
      assert ([""] + rest)[1..] == rest;
      assert s == sep + s[|sep|..];
    } else {
      var rest := Split(s[1..], sep);
      JoinSplit(s[1..], sep);
      var r := [[s[0]] + rest[0]] + rest[1..];
      assert Split(s, sep) == r;
      if |rest| == 1 {
        assert s == [s[0]] + s[1..];
      } else {
        assert r[1..] == rest[1..];
        assert Join(rest, sep) == rest[0] + sep + Join(rest[1..], sep);
        assert s == [s[0]] + s[1..];
      }
    }
  }

  /** k leftmost non-overlapping occurrences give k + 1 pieces. */
  lemma {:induction false} SplitCount(s: string, sep: string)
    requires sep != []
    ensures |Split(s, sep)| == Occurrences(s, sep) + 1
    decreases |s|
  {
    if |s| < |sep| {
    } else if s[..|sep|] == sep {
      SplitCount(s[|sep|..], sep);
    } else {
      SplitCount(s[1..], sep);
    }
  }

  /** The first piece is a prefix of the source. */
  lemma {:induction false} SplitHeadPrefix(s: string, sep: string)
    requires sep != []
    ensures Split(s, sep)[0] <= s
    decreases |s|
  {
    if |s| < |sep| {
    } else if s[..|sep|] == sep {
    } else {
      SplitHeadPrefix(s[1..], sep);
      assert s == [s[0]] + s[1..];
    }
  }

  /** No piece contains the separator: the split is on every occurrence. */
  lemma {:induction false} SplitPiecesFree(s: string, sep: string)
    requires sep != []
    ensures forall k :: 0 <= k < |Split(s, sep)| ==> Free(Split(s, sep)[k], sep)
    decreases |s|
  {
    if |s| < |sep| {
      forall i | 0 <= i <= |s| ensures !OccursAt(s, sep, i) { }
    } else if s[..|sep|] == sep {
      SplitPiecesFree(s[|sep|..], sep);
      var rest := Split(s[|sep|..], sep);
      assert Split(s, sep) == [""] + rest;
    } else {
      SplitPiecesFree(s[1..], sep);
      SplitHeadPrefix(s[1..], sep);
      var rest := Split(s[1..], sep);
      var head := [s[0]] + rest[0];
      assert head <= s by { assert s == [s[0]] + s[1..]; }
      forall i | 0 <= i <= |head| ensures !OccursAt(head, sep, i) {
        if i == 0 && |sep| <= |head| {
          assert head[..|sep|] == s[..|sep|];
        } else if i > 0 && OccursAt(head, sep, i) {
          assert head[i..i + |sep|] == rest[0][i - 1..i - 1 + |sep|];
          assert OccursAt(rest[0], sep, i - 1);
        }
      }
      assert Split(s, sep) == [head] + rest[1..];
      forall k | 0 <= k < |Split(s, sep)| ensures Free(Split(s, sep)[k], sep) {
        if k > 0 { assert Split(s, sep)[k] == rest[k]; }
      }
    }
  }

  /** A source without the separator is one piece, itself. */
  lemma {:induction false} SplitWithoutMarker(s: string, sep: string)
    requires sep != []
    requires Free(s, sep)
    ensures Split(s, sep) == [s]
    decreases |s|
  {
    if |s| >= |sep| {
      assert !OccursAt(s, sep, 0);
      assert Free(s[1..], sep) by {
        forall i | 0 <= i <= |s[1..]| ensures !OccursAt(s[1..], sep, i) {
          if OccursAt(s[1..], sep, i) {
            assert s[1..][i..i + |sep|] == s[i + 1..i + 1 + |sep|];
            assert OccursAt(s, sep, i + 1);
          }
        }
      }
      SplitWithoutMarker(s[1..], sep);
      assert s == [s[0]] + s[1..];
    }
  }

  /** A string that never holds the separator's first character contains no separator. */
  lemma FreeWithoutLead(s: string, sep: string)
    requires sep != []
    requires forall k :: 0 <= k < |s| ==> s[k] != sep[0]
    ensures Free(s, sep)
  {
    forall i | 0 <= i <= |s| ensures !OccursAt(s, sep, i) {
      if i + |sep| <= |s| {
        assert s[i..i + |sep|][0] == s[i] != sep[0];
      }
    }
  }

  /** When the text before a separator never holds the separator's first character, the
      split cuts there: that text is the first piece and the rest is split on its own. */
  lemma {:induction false} SplitAtMarker(a: string, sep: string, b: string)
    requires sep != []
    requires forall k :: 0 <= k < |a| ==> a[k] != sep[0]
    ensures Split(a + sep + b, sep) == [a] + Split(b, sep)
    decreases |a|
  {
    var s := a + sep + b;
    if a == [] {
      assert s == sep + b;
      assert s[..|sep|] == sep;
      assert s[|sep|..] == b;
    } else {
      assert s[0] == a[0];
      assert s[..|sep|][0] == a[0];
      assert s[1..] == a[1..] + sep + b;
      SplitAtMarker(a[1..], sep, b);
      assert a == [a[0]] + a[1..];
    }
  }

  // ---------------------------------------------------------------------------
  // Properties of the fragments of one source.

  /** The fragments are one more than the markers, each is the header followed by its piece,
      no piece holds a marker, and without the headers they join back into the source. */
  lemma FragmentsRoundTrip(source: string, cmdline: string)
    ensures var frags := Fragments(source, cmdline);
      var chunks := Split(source, SplitMarker);
      && |frags| == Occurrences(source, SplitMarker) + 1
      && (forall i :: 0 <= i < |frags| ==> frags[i] == FragmentHeader(cmdline) + chunks[i] && Free(chunks[i], SplitMarker))
      && Join(StripHeaders(frags, FragmentHeader(cmdline)), SplitMarker) == source
  {
    var frags := Fragments(source, cmdline);
    var chunks := Split(source, SplitMarker);
    var header := FragmentHeader(cmdline);
    SplitCount(source, SplitMarker);
    SplitPiecesFree(source, SplitMarker);
    JoinSplit(source, SplitMarker);
    assert StripHeaders(frags, header) == chunks by {
      forall i | 0 <= i < |frags| ensures StripHeaders(frags, header)[i] == chunks[i] {
        assert frags[i] == header + chunks[i];
      }
    }
  }

  /** A source without any marker gives exactly one fragment: the header and the whole source. */
  lemma FragmentsWithoutMarker(source: string, cmdline: string)
    requires Free(source, SplitMarker)
    ensures Fragments(source, cmdline) == [FragmentHeader(cmdline) + source]
  {
    SplitWithoutMarker(source, SplitMarker);
  }
}
