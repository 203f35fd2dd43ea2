/**
  Text transformations of single cells and of column names: the `Player`
  normaliser, the first line of a wingspan name, the position replacement
  map and the positional `opp_` / `tm_` renames.
 */
module Names {
  import opened Wrappers
  import opened Text

  // ---------------------------------------------------------------------
  // clean_player_column (data_cleaning.py:16-20): transliterate, lower-case,
  // delete what is neither a word nor a space character

  /**
    The transliteration table of `unidecode`: the ASCII text written for a
    non-ASCII character. A character the table lacks is dropped, as
    `unidecode` does with characters it has no entry for.
   */
  type Transliteration = map<char, string>

  predicate AsciiTable(table: Transliteration)
  {
    forall c | c in table :: AllAscii(table[c])
  }

  /** The `unidecode` transliteration: ASCII characters stay, the others are transliterated one by one. */
  function Unidecode(s: string, table: Transliteration): (t: string)
    ensures AsciiTable(table) ==> AllAscii(t)
    ensures AllAscii(s) ==> t == s
  {
    if s == [] then []
    else
      var head := if IsAscii(s[0]) then [s[0]] else if s[0] in table then table[s[0]] else [];
      head + Unidecode(s[1..], table)
  }

  /** A character that `[^\w\s]` does not match. */
  predicate Kept(c: char) { IsWordChar(c) || IsSpace(c) }

  /**
    The punctuation removal of `clean_player_column` (data_cleaning.py:19):
    every word and space character is kept, as often as it occurs, and all
    others are deleted.
   */
  function KeepWordsAndSpaces(s: string): (t: string)
    ensures |t| <= |s|
    ensures forall i | 0 <= i < |t| :: Kept(t[i])
    ensures forall c | Kept(c) :: Count(t, c) == Count(s, c)
    ensures forall c | !Kept(c) :: Count(t, c) == 0
  {
    if s == [] then []
    else if Kept(s[0]) then [s[0]] + KeepWordsAndSpaces(s[1..])
    else KeepWordsAndSpaces(s[1..])
  }

  /** The value `clean_player_column` writes for one `Player` cell (data_cleaning.py:18-19). */
  function CleanName(s: string, table: Transliteration): string
  {
    KeepWordsAndSpaces(Lower(Unidecode(s, table)))
  }

  /** `t` is obtained from `s` by deleting characters. */
  predicate IsSubsequence(t: string, s: string)
  {
    if t == [] then true
    else if s == [] then false
    else if t[0] == s[0] then IsSubsequence(t[1..], s[1..])
    else IsSubsequence(t, s[1..])
  }

  /** A normalised name. */
  predicate IsClean(s: string)
  {
    forall i | 0 <= i < |s| :: IsAscii(s[i]) && !IsUpper(s[i]) && Kept(s[i])
  }

  lemma {:induction false} KeepIsSubsequence(s: string)
    ensures IsSubsequence(KeepWordsAndSpaces(s), s)
  {
    if s != [] {
      KeepIsSubsequence(s[1..]);
      var t := KeepWordsAndSpaces(s);
      if Kept(s[0]) {
        assert t[0] == s[0] && t[1..] == KeepWordsAndSpaces(s[1..]);
      } else {
        assert t == [] || Kept(t[0]);
      }
    }
  }

  lemma {:induction false} SubsequenceChars(t: string, s: string)
    requires IsSubsequence(t, s)
    ensures forall i | 0 <= i < |t| :: t[i] in s
  {
    if t != [] && s != [] {
      if t[0] == s[0] {
        SubsequenceChars(t[1..], s[1..]);
        forall i | 0 <= i < |t| ensures t[i] in s {
          if i > 0 {
            assert t[i] == t[1..][i - 1];
          }
        }
      } else {
        SubsequenceChars(t, s[1..]);
      }
    }
  }

  lemma {:induction false} KeepFixesKept(s: string)
    requires forall i | 0 <= i < |s| :: Kept(s[i])
    ensures KeepWordsAndSpaces(s) == s
  {
    if s != [] {
      assert Kept(s[0]);
      KeepFixesKept(s[1..]);
      assert [s[0]] + s[1..] == s;
    }
  }

  /**
    A cleaned name is ASCII, has no upper-case letter and only word and
    space characters, and is the lower-cased transliteration with
    characters deleted.
   */
  lemma CleanNameShape(s: string, table: Transliteration)
    requires AsciiTable(table)
    ensures IsClean(CleanName(s, table))
    ensures IsSubsequence(CleanName(s, table), Lower(Unidecode(s, table)))
    ensures forall c | Kept(c) :: Count(CleanName(s, table), c) == Count(Lower(Unidecode(s, table)), c)
  {
    var l := Lower(Unidecode(s, table));
    var r := CleanName(s, table);
    KeepIsSubsequence(l);
    SubsequenceChars(r, l);
    forall i | 0 <= i < |r| ensures IsAscii(r[i]) && !IsUpper(r[i]) {
      var k :| 0 <= k < |l| && l[k] == r[i];
    }
  }

  /** Exactly the clean names are left as they are. */
  lemma CleanNameFixpoint(s: string, table: Transliteration)
    requires AsciiTable(table)
    ensures CleanName(s, table) == s <==> IsClean(s)
  {
    if IsClean(s) {
      assert AllAscii(s);
      assert Lower(s) == s;
      KeepFixesKept(s);
    } else {
      CleanNameShape(s, table);
    }
  }

  /** Cleaning twice is cleaning once. */
  lemma CleanNameIdempotent(s: string, table: Transliteration)
    requires AsciiTable(table)
    ensures CleanName(CleanName(s, table), table) == CleanName(s, table)
  {
    CleanNameShape(s, table);
    CleanNameFixpoint(CleanName(s, table), table);
  }

  /** On ASCII text the table is never consulted. */
  lemma CleanNameOfAscii(s: string, table1: Transliteration, table2: Transliteration)
    requires AllAscii(s)
    ensures CleanName(s, table1) == CleanName(s, table2) == KeepWordsAndSpaces(Lower(s))
  {
  }

  // ---------------------------------------------------------------------
  // The first line of a wingspan name (data_cleaning.py:44)

  /** The text before the first line break. */
  function FirstLine(s: string): string
  {
    Split(s, '\n')[0]
  }

  /**
    The first line holds no line break; it is the whole text when there is
    none, and otherwise the text is the first line, a line break and the rest.
   */
  lemma {:induction false} FirstLineOfSplit(s: string)
    ensures '\n' !in FirstLine(s)
    ensures '\n' !in s ==> FirstLine(s) == s
    ensures '\n' in s ==> |FirstLine(s)| < |s| && s == FirstLine(s) + ['\n'] + s[|FirstLine(s)| + 1..]
  {
    if s != [] && s[0] != '\n' {
      FirstLineOfSplit(s[1..]);
      var f := FirstLine(s[1..]);
      assert FirstLine(s) == [s[0]] + f;
      if '\n' in s {
        assert '\n' in s[1..];
        assert s == [s[0]] + s[1..];
      } else {
        assert s == [s[0]] + s[1..];
      }
    } else if s != [] {
      assert s == [] + ['\n'] + s[1..];
    }
  }

  /** Taking the first line twice is taking it once. */
  lemma FirstLineIdempotent(s: string)
    ensures FirstLine(FirstLine(s)) == FirstLine(s)
  {
    FirstLineOfSplit(s);
    FirstLineOfSplit(FirstLine(s));
  }

  // ---------------------------------------------------------------------
  // The position replacements (data_cleaning.py:253-256)

  /** The two-position labels and the single position each one becomes. */
  const PositionReplacements: map<string, string> :=
    map["C-F" := "C", "F-C" := "F", "F-G" := "F", "G-F" := "G"]

  /**
    The replacement of one text value: a hybrid label `X-Y` becomes its first
    position `X`, anything else stays, and no result is itself a hybrid label.
   */
  function ReplacePosition(s: string): (t: string)
    ensures s in PositionReplacements ==> |s| == 3 && s[1] == '-' && t == s[..1]
    ensures s !in PositionReplacements ==> t == s
    ensures t !in PositionReplacements
  {
    if s in PositionReplacements then PositionReplacements[s] else s
  }

  /** A replaced value is never itself a key, so one pass is as good as two. */
  lemma ReplacePositionIdempotent(s: string)
    ensures ReplacePosition(ReplacePosition(s)) == ReplacePosition(s)
  {
  }

  // ---------------------------------------------------------------------
  // The positional prefix renames of the team tables (data_cleaning.py:135-174):
  // the names at a range of positions are looked up, then every column
  // carrying one of those names is renamed by prefixing it.

  /** The names at positions `lo` to `hi - 1` that exist. */
  function NamesIn(names: seq<string>, lo: nat, hi: nat): set<string>
  {
    set i | lo <= i < hi && i < |names| :: names[i]
  }

  /**
    The renamed column list, or `None` for the `IndexError` of positions past
    the last column. `rename` maps by name, so every column whose name is one
    of the selected names is renamed.
   */
  function PrefixRange(names: seq<string>, lo: nat, hi: nat, prefix: string): (r: Option<seq<string>>)
    ensures r.Some? <==> lo >= hi || hi <= |names|
    ensures r.Some? ==> |r.value| == |names|
    ensures r.Some? ==> forall i | lo <= i < hi && i < |names| :: r.value[i] == prefix + names[i]
    ensures r.Some? ==> forall i | 0 <= i < |names| && !(lo <= i < hi) ::
      r.value[i] == if exists j | lo <= j < hi && j < |names| :: names[j] == names[i]
        then prefix + names[i] else names[i]
  {
    if lo < hi && hi > |names| then None
    else
      var chosen := NamesIn(names, lo, hi);
      Some(seq(|names|, i requires 0 <= i < |names| =>
        if names[i] in chosen then prefix + names[i] else names[i]))
  }

  predicate Distinct(names: seq<string>)
  {
    forall i, j | 0 <= i < j < |names| :: names[i] != names[j]
  }

  /** With distinct names, exactly the columns at positions `lo` to `hi - 1` get the prefix. */
  lemma PrefixRangeExact(names: seq<string>, lo: nat, hi: nat, prefix: string)
    requires Distinct(names) && hi <= |names|
    ensures PrefixRange(names, lo, hi, prefix).Some?
    ensures forall i | 0 <= i < |names| ::
      PrefixRange(names, lo, hi, prefix).value[i] == if lo <= i < hi then prefix + names[i] else names[i]
  {
    var r := PrefixRange(names, lo, hi, prefix).value;
    forall i | 0 <= i < |names| && !(lo <= i < hi)
      ensures !exists j | lo <= j < hi && j < |names| :: names[j] == names[i]
    {
      forall j | lo <= j < hi && j < |names| ensures names[j] != names[i] {
        assert i != j;
      }
    }
  }

  /** The opponent columns of the team table: positions 11 to 22 (data_cleaning.py:135). */
  const OpponentColumns: (nat, nat) := (11, 23)
  /** The team columns of the team table after its drop: positions 7 to 16 (data_cleaning.py:154). */
  const TeamColumns: (nat, nat) := (7, 17)
  /** The opponent columns of the advanced team table: positions 13 to 16 (data_cleaning.py:163). */
  const AdvancedOpponentColumns: (nat, nat) := (13, 17)
  /** The team columns of the advanced team table: positions 7 to 17 (data_cleaning.py:172). */
  const AdvancedTeamColumns: (nat, nat) := (7, 18)

  /**
    The team table with distinct column names: its opponent rename prefixes
    positions 11 to 22 with `opp_`, and, on the table left by the drop, the
    team rename prefixes positions 7 to 16 with `tm_`.
   */
  lemma TeamTableRenames(names: seq<string>, dropped: seq<string>)
    requires Distinct(names) && |names| >= OpponentColumns.1
    requires Distinct(dropped) && |dropped| >= TeamColumns.1
    ensures var r := PrefixRange(names, OpponentColumns.0, OpponentColumns.1, "opp_");
      r.Some? && forall i | 0 <= i < |names| ::
        r.value[i] == if 11 <= i <= 22 then "opp_" + names[i] else names[i]
    ensures var r := PrefixRange(dropped, TeamColumns.0, TeamColumns.1, "tm_");
      r.Some? && forall i | 0 <= i < |dropped| ::
        r.value[i] == if 7 <= i <= 16 then "tm_" + dropped[i] else dropped[i]
  {
    PrefixRangeExact(names, OpponentColumns.0, OpponentColumns.1, "opp_");
    PrefixRangeExact(dropped, TeamColumns.0, TeamColumns.1, "tm_");
  }

  /**
    The advanced team table is renamed twice with overlapping ranges: the
    opponent columns at positions 13 to 16 end up prefixed `tm_opp_`, the
    other positions from 7 to 17 `tm_`, and the rest keep their names. The
    names must stay distinct after the first rename, or the second would
    rename more columns than the positions select.
   */
  lemma AdvancedTeamTableRenames(names: seq<string>)
    requires |names| >= AdvancedTeamColumns.1 && Distinct(names)
    requires Distinct(PrefixRange(names, AdvancedOpponentColumns.0, AdvancedOpponentColumns.1, "opp_").value)
    ensures var once := PrefixRange(names, AdvancedOpponentColumns.0, AdvancedOpponentColumns.1, "opp_").value;
      var r := PrefixRange(once, AdvancedTeamColumns.0, AdvancedTeamColumns.1, "tm_");
      r.Some? && forall i | 0 <= i < |names| ::
        r.value[i] ==
          if 13 <= i <= 16 then "tm_opp_" + names[i]
          else if 7 <= i <= 17 then "tm_" + names[i]
          else names[i]
  {
    PrefixRangeExact(names, AdvancedOpponentColumns.0, AdvancedOpponentColumns.1, "opp_");
    var once := PrefixRange(names, AdvancedOpponentColumns.0, AdvancedOpponentColumns.1, "opp_").value;
    PrefixRangeExact(once, AdvancedTeamColumns.0, AdvancedTeamColumns.1, "tm_");
    var r := PrefixRange(once, AdvancedTeamColumns.0, AdvancedTeamColumns.1, "tm_").value;
    forall i | 13 <= i <= 16 ensures r[i] == "tm_opp_" + names[i] {
      assert r[i] == "tm_" + ("opp_" + names[i]);
    }
  }

}
