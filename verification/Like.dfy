/**
 * Searching for text in a database column: the passes that escape wildcards, and what the pattern they make matches.
 * Models replaceAll and escapeAll of StringUtil, and Like of QueryBuilder.
 */
module Likes {
  import opened Bytes

  // ---------------------------------------------------------------------------------------------
  // Replacing text

  predicate MatchesAt(str: string, pos: nat, part: string) { pos + |part| <= |str| && str[pos..pos + |part|] == part }

  lemma MatchShifts(str: string, m: nat, k: nat, part: string)
    requires m <= |str|
    ensures MatchesAt(str[m..], k, part) <==> MatchesAt(str, m + k, part)
  {
    if m + k + |part| <= |str| {
      assert str[m..][k..k + |part|] == str[m + k..m + k + |part|];
    }
  }

  /** The text with every match of a part replaced, found from the left and not overlapping. */
  function Replaced(str: string, part: string, repl: string): string
    requires part != ""
  {
    if str == "" then ""
    else if MatchesAt(str, 0, part) then repl + Replaced(str[|part|..], part, repl)
    else [str[0]] + Replaced(str[1..], part, repl)
  }

  /** The text between the matches. */
  function Pieces(str: string, part: string): (pieces: seq<string>)
    requires part != ""
    ensures pieces != []
  {
    if str == "" then [""]
    else if MatchesAt(str, 0, part) then [""] + Pieces(str[|part|..], part)
    else
      var rest := Pieces(str[1..], part);
      [[str[0]] + rest[0]] + rest[1..]
  }

  function Join(pieces: seq<string>, glue: string): string {
    if pieces == [] then "" else if |pieces| == 1 then pieces[0] else pieces[0] + glue + Join(pieces[1..], glue)
  }

  lemma JoinPrepended(x: char, pieces: seq<string>, glue: string)
    requires pieces != []
    ensures Join([[x] + pieces[0]] + pieces[1..], glue) == [x] + Join(pieces, glue)
  {
    var pieces' := [[x] + pieces[0]] + pieces[1..];
    assert pieces'[1..] == pieces[1..];
    if |pieces| > 1 {
      assert [x] + pieces[0] + glue + Join(pieces[1..], glue) == [x] + (pieces[0] + glue + Join(pieces[1..], glue));
    }
  }

  lemma JoinEmptyFirst(pieces: seq<string>, glue: string)
    requires pieces != []
    ensures Join([""] + pieces, glue) == glue + Join(pieces, glue)
  {
    assert ([""] + pieces)[1..] == pieces;
    assert "" + glue == glue;
  }

  /** Replacing exchanges one glue for another between the same pieces, and no piece has a match left in it. */
  lemma {:induction false} ReplacedJoinsPieces(str: string, part: string, repl: string)
    requires part != ""
    ensures Join(Pieces(str, part), part) == str
    ensures Join(Pieces(str, part), repl) == Replaced(str, part, repl)
  {
    if str == "" {
    } else if MatchesAt(str, 0, part) {
      var rest := str[|part|..];
      ReplacedJoinsPieces(rest, part, repl);
      JoinEmptyFirst(Pieces(rest, part), part);
      JoinEmptyFirst(Pieces(rest, part), repl);
      assert str == part + rest;
    } else {
      ReplacedJoinsPieces(str[1..], part, repl);
      JoinPrepended(str[0], Pieces(str[1..], part), part);
      JoinPrepended(str[0], Pieces(str[1..], part), repl);
      assert str == [str[0]] + str[1..];
    }
  }

  lemma {:induction false} FirstPieceIsPrefix(str: string, part: string)
    requires part != ""
    ensures var first := Pieces(str, part)[0];
      |first| <= |str| && str[..|first|] == first && forall k: nat :: k < |first| ==> !MatchesAt(str, k, part)
  {
    if str == "" || MatchesAt(str, 0, part) {
    } else {
      FirstPieceIsPrefix(str[1..], part);
      var first := Pieces(str[1..], part)[0];
      assert str[..|first| + 1] == [str[0]] + str[1..][..|first|];
      forall k: nat | k < |first| + 1 ensures !MatchesAt(str, k, part) {
        if k > 0 {
          MatchShifts(str, 1, k - 1, part);
        }
      }
    }
  }

  lemma {:induction false} PiecesHaveNoMatch(str: string, part: string, i: nat, pos: nat)
    requires part != "" && i < |Pieces(str, part)|
    ensures !MatchesAt(Pieces(str, part)[i], pos, part)
  {
    var piece := Pieces(str, part)[i];
    if i == 0 {
      FirstPieceIsPrefix(str, part);
      if pos + |part| <= |piece| {
        assert !MatchesAt(str, pos, part);
        assert piece[pos..pos + |part|] == str[pos..pos + |part|];
      }
    } else if MatchesAt(str, 0, part) {
      PiecesHaveNoMatch(str[|part|..], part, i - 1, pos);
    } else {
      PiecesHaveNoMatch(str[1..], part, i, pos);
    }
  }

  /** Where no match begins, the text stays. */
  lemma {:induction false} ReplacedSkips(str: string, part: string, repl: string, n: nat)
    requires part != "" && n <= |str| && forall k: nat :: k < n ==> !MatchesAt(str, k, part)
    ensures Replaced(str, part, repl) == str[..n] + Replaced(str[n..], part, repl)
  {
    if n == 0 {
      assert str[0..] == str;
    } else {
      forall k: nat | k < n - 1 ensures !MatchesAt(str[1..], k, part) {
        MatchShifts(str, 1, k, part);
      }
      ReplacedSkips(str[1..], part, repl, n - 1);
      assert str[..n] == [str[0]] + str[1..][..n - 1] && str[1..][n - 1..] == str[n..];
    }
  }

  /** The first match from a position on. */
  method Find(str: string, part: string, pos: nat) returns (found: Option<nat>)
    requires pos <= |str|
    ensures found.Some? ==> found.value >= pos && MatchesAt(str, found.value, part)
    ensures forall i: nat :: pos <= i && MatchesAt(str, i, part) ==> found.Some? && found.value <= i
  {
    var i := pos;
    while i + |part| <= |str|
      invariant pos <= i && forall k: nat :: pos <= k < i ==> !MatchesAt(str, k, part)
    {
      if MatchesAt(str, i, part) {
        return Some(i);
      }
      i := i + 1;
    }
    return None;
  }

  lemma ReplacedMatch(str: string, part: string, repl: string)
    requires part != "" && MatchesAt(str, 0, part)
    ensures Replaced(str, part, repl) == repl + Replaced(str[|part|..], part, repl)
  {
  }

  lemma ReplacedFrom(str: string, part: string, repl: string, pos: nat, found: nat)
    requires part != "" && pos <= found && MatchesAt(str, found, part)
    requires forall i: nat :: pos <= i < found ==> !MatchesAt(str, i, part)
    ensures Replaced(str[pos..], part, repl) == str[pos..found] + repl + Replaced(str[found + |part|..], part, repl)
  {
    hide Replaced;
    var rest, n := str[pos..], found - pos;
    forall k: nat | k < n ensures !MatchesAt(rest, k, part) {
      MatchShifts(str, pos, k, part);
    }
    ReplacedSkips(rest, part, repl, n);
    assert rest[n..] == str[found..] && str[found..][|part|..] == str[found + |part|..];
    MatchShifts(str, found, 0, part);
    ReplacedMatch(str[found..], part, repl);
    assert rest[..n] == str[pos..found];
    assert str[pos..found] + (repl + Replaced(str[found + |part|..], part, repl))
        == str[pos..found] + repl + Replaced(str[found + |part|..], part, repl);
  }

  lemma NothingToReplace(str: string, part: string, repl: string, pos: nat)
    requires part != "" && pos <= |str| && forall i: nat :: pos <= i ==> !MatchesAt(str, i, part)
    ensures Replaced(str[pos..], part, repl) == str[pos..]
  {
    var rest := str[pos..];
    forall k: nat | k < |rest| ensures !MatchesAt(rest, k, part) {
      MatchShifts(str, pos, k, part);
    }
    ReplacedSkips(rest, part, repl, |rest|);
  }

  /** What is put in moves to the part that is done. */
  lemma OneReplaced(was: string, at: nat, found: nat, length: nat, repl: string, rest: string)
    requires at <= found && found + length <= |was|
    ensures var str := was[..found] + repl + was[found + length..];
      && str[found + |repl|..] == was[found + length..]
      && str[..found + |repl|] + rest == was[..at] + (was[at..found] + repl + rest)
  {
    var str := was[..found] + repl + was[found + length..];
    assert str[found + |repl|..] == was[found + length..];
    assert str[..found + |repl|] == was[..found] + repl;
    assert was[..found] == was[..at] + was[at..found];
    assert was[..at] + was[at..found] + repl + rest == was[..at] + (was[at..found] + repl + rest);
  }

  /** Replaces in place, going on behind each replacement, so that what was put in is never searched again. */
  method ReplaceAll(input: string, part: string, repl: string) returns (str: string)
    ensures str == if part == "" then input else Replaced(input, part, repl)
  {
    hide Replaced;
    str := input;
    if part == "" {
      return;
    }
    var pos: nat := 0;
    assert str[0..] == str && str[..0] == "";
    var found := Find(str, part, pos);
    while found.Some?
      invariant pos <= |str| && Replaced(input, part, repl) == str[..pos] + Replaced(str[pos..], part, repl)
      invariant found.Some? ==> found.value >= pos && MatchesAt(str, found.value, part)
      invariant forall i: nat :: pos <= i && MatchesAt(str, i, part) ==> found.Some? && found.value <= i
      decreases |str| - pos, found.Some?
    {
      ReplacedFrom(str, part, repl, pos, found.value);
      ghost var was, at := str, pos;
      str := str[..found.value] + repl + str[found.value + |part|..];
      pos := found.value + |repl|;
      OneReplaced(was, at, found.value, |part|, repl, Replaced(was[found.value + |part|..], part, repl));
      found := Find(str, part, pos);
    }
    NothingToReplace(str, part, repl, pos);
    assert str == str[..pos] + str[pos..];
  }

  // ---------------------------------------------------------------------------------------------
  // Escaping

  /** Escaping character by character. */
  function Escaped(str: string, special: seq<char>, escape: char): string {
    if str == "" then ""
    else (if str[0] in special then [escape, str[0]] else [str[0]]) + Escaped(str[1..], special, escape)
  }

  /** Taking each escaped character for itself. */
  function Unescaped(str: string, escape: char): string {
    if str == "" then ""
    else if str[0] == escape && |str| > 1 then [str[1]] + Unescaped(str[2..], escape)
    else [str[0]] + Unescaped(str[1..], escape)
  }

  /** The passes that escaping is made of, one for each character. */
  function Passes(str: string, special: seq<char>, escape: char): string
    decreases |special|
  {
    if special == [] then str
    else
      var last := special[|special| - 1];
      Replaced(Passes(str, special[..|special| - 1], escape), [last], [escape, last])
  }

  ghost predicate NoneTwice(special: seq<char>) { forall i, j :: 0 <= i < j < |special| ==> special[i] != special[j] }

  lemma {:induction false} UnescapeInverts(str: string, special: seq<char>, escape: char)
    requires escape in special
    ensures Unescaped(Escaped(str, special, escape), escape) == str
  {
    if str != "" {
      var rest := Escaped(str[1..], special, escape);
      UnescapeInverts(str[1..], special, escape);
      if str[0] in special {
        assert Escaped(str, special, escape)[2..] == rest;
      } else {
        assert Escaped(str, special, escape)[1..] == rest;
      }
      assert str == [str[0]] + str[1..];
    }
  }

  lemma ReplacedChar(str: string, c: char, repl: string)
    requires str != ""
    ensures Replaced(str, [c], repl) == (if str[0] == c then repl else [str[0]]) + Replaced(str[1..], [c], repl)
  {
    assert str[0..1] == [str[0]];
  }

  /** One more pass escapes one more character, if it is a new one. */
  lemma {:induction false} PassEscapes(str: string, special: seq<char>, escape: char, c: char)
    requires c !in special && (c == escape ==> special == [])
    ensures Replaced(Escaped(str, special, escape), [c], [escape, c]) == Escaped(str, special + [c], escape)
  {
    if str != "" {
      var e, x := Escaped(str, special, escape), str[0];
      var rest := Escaped(str[1..], special, escape);
      PassEscapes(str[1..], special, escape, c);
      ReplacedChar(e, c, [escape, c]);
      if x in special {
        assert e[1..] == [x] + rest && ([x] + rest)[1..] == rest;
        ReplacedChar([x] + rest, c, [escape, c]);
      } else {
        assert e[1..] == rest;
      }
    }
  }

  lemma {:induction false} NothingEscaped(str: string, escape: char)
    ensures Escaped(str, [], escape) == str
  {
    if str != "" {
      NothingEscaped(str[1..], escape);
      assert str == [str[0]] + str[1..];
    }
  }

  /**
   * The passes one after another escape character by character, if the escape character comes first and none comes
   * twice.
   */
  lemma {:induction false} PassesEscape(str: string, special: seq<char>, escape: char)
    requires special != [] ==> special[0] == escape
    requires NoneTwice(special)
    ensures Passes(str, special, escape) == Escaped(str, special, escape)
    decreases |special|
  {
    if special == [] {
      NothingEscaped(str, escape);
    } else {
      var front, last := special[..|special| - 1], special[|special| - 1];
      PassesEscape(str, front, escape);
      assert front != [] ==> front[0] == special[0];
      assert front + [last] == special;
      PassEscapes(str, front, escape, last);
    }
  }

  lemma {:induction false} PassGrows(str: string, c: char, repl: string)
    requires repl != ""
    ensures |Replaced(str, [c], repl)| >= |str| + if c in str then |repl| - 1 else 0
    ensures forall x :: x in str && x != c ==> x in Replaced(str, [c], repl)
    ensures c in str && c in repl ==> c in Replaced(str, [c], repl)
  {
    if str != "" {
      ReplacedChar(str, c, repl);
      PassGrows(str[1..], c, repl);
      assert str == [str[0]] + str[1..];
    }
  }

  /** How often a character comes up among the passes. */
  function Count(special: seq<char>, c: char): nat
    decreases |special|
  {
    if special == [] then 0 else Count(special[..|special| - 1], c) + if special[|special| - 1] == c then 1 else 0
  }

  lemma {:induction false} CountsTwice(special: seq<char>, i: nat, j: nat)
    requires i < j < |special| && special[i] == special[j]
    ensures Count(special, special[i]) >= 2
    decreases |special|
  {
    var front := special[..|special| - 1];
    if j < |special| - 1 {
      CountsTwice(front, i, j);
    } else {
      CountsOnce(front, i);
    }
  }

  lemma {:induction false} CountsOnce(special: seq<char>, i: nat)
    requires i < |special|
    ensures Count(special, special[i]) >= 1
    decreases |special|
  {
    if i < |special| - 1 {
      CountsOnce(special[..|special| - 1], i);
    }
  }

  /** A text of one character grows with each pass for that character. */
  lemma {:induction false} PassesGrow(c: char, special: seq<char>, escape: char)
    ensures c in Passes([c], special, escape) && |Passes([c], special, escape)| >= 1 + Count(special, c)
    decreases |special|
  {
    if special != [] {
      var last := special[|special| - 1];
      PassesGrow(c, special[..|special| - 1], escape);
      PassGrows(Passes([c], special[..|special| - 1], escape), last, [escape, last]);
    }
  }

  /**
   * The passes escape every text character by character exactly if no character comes up twice, the escape included.
   */
  lemma PassesEscapeIff(delims: seq<char>, escape: char)
    ensures (forall str :: Passes(str, [escape] + delims, escape) == Escaped(str, [escape] + delims, escape))
       <==> NoneTwice([escape] + delims)
  {
    var special := [escape] + delims;
    if NoneTwice(special) {
      forall str ensures Passes(str, special, escape) == Escaped(str, special, escape) {
        PassesEscape(str, special, escape);
      }
    } else {
      var i, j :| 0 <= i < j < |special| && special[i] == special[j];
      var c := special[i];
      CountsTwice(special, i, j);
      PassesGrow(c, special, escape);
      assert [c][1..] == "";
      assert |Escaped([c], special, escape)| == 2;
    }
  }

  method EscapeAll(input: string, delims: seq<char>, escape: char) returns (str: string)
    ensures str == Passes(input, [escape] + delims, escape)
    ensures NoneTwice([escape] + delims) ==>
              str == Escaped(input, [escape] + delims, escape) && Unescaped(str, escape) == input
  {
    var special := [escape] + delims;
    str := ReplaceAll(input, [escape], [escape, escape]);
    assert special[..1] == [escape] && [escape][..0] == [];
    for i := 0 to |delims|
      invariant str == Passes(input, special[..i + 1], escape)
    {
      assert special[..i + 2][..i + 1] == special[..i + 1] && special[..i + 2][i + 1] == delims[i];
      assert [escape] + [delims[i]] == [escape, delims[i]];
      str := ReplaceAll(str, [delims[i]], [escape] + [delims[i]]);
    }
    assert special[..|delims| + 1] == special;
    if NoneTwice(special) {
      PassesEscape(input, special, escape);
      UnescapeInverts(input, special, escape);
    }
  }

  // ---------------------------------------------------------------------------------------------
  // What a pattern matches

  /**
   * The LIKE predicate with an escape character, section 8.5 of ISO/IEC 9075:1992: a percent sign stands for any text,
   * an underscore for any one character, an escaped character for itself. Which characters count as equal is up to the
   * database.
   */
  predicate LikeMatch(text: string, pattern: string, escape: char, eq: (char, char) -> bool)
    decreases |text| + |pattern|
  {
    if pattern == "" then text == ""
    else if pattern[0] == escape then
      && |pattern| > 1 && pattern[1] in [escape, '%', '_']
      && text != "" && eq(pattern[1], text[0]) && LikeMatch(text[1..], pattern[2..], escape, eq)
    else if pattern[0] == '%' then
      LikeMatch(text, pattern[1..], escape, eq) || (text != "" && LikeMatch(text[1..], pattern, escape, eq))
    else if pattern[0] == '_' then text != "" && LikeMatch(text[1..], pattern[1..], escape, eq)
    else text != "" && eq(pattern[0], text[0]) && LikeMatch(text[1..], pattern[1..], escape, eq)
  }

  const WILDCARDS: seq<char> := ['_', '%']
  const ESCAPE: char := '\\'

  /** Where the caller manages the wildcards itself: so many underscores match exactly the texts of that length. */
  lemma {:induction false} UnderscoresCount(text: string, n: nat, eq: (char, char) -> bool)
    ensures LikeMatch(text, seq(n, i => '_'), ESCAPE, eq) <==> |text| == n
  {
    if n > 0 {
      assert seq(n, i => '_')[1..] == seq(n - 1, i => '_');
      if text != "" {
        UnderscoresCount(text[1..], n - 1, eq);
      }
    }
  }

  /** An escape character before one that needs no escape matches nothing. */
  lemma StrayEscapeMatchesNothing(text: string, c: char, pattern: string, eq: (char, char) -> bool)
    requires c !in [ESCAPE] + WILDCARDS
    ensures !LikeMatch(text, [ESCAPE, c] + pattern, ESCAPE, eq)
  {
    assert ([ESCAPE, c] + pattern)[0] == ESCAPE && ([ESCAPE, c] + pattern)[1] == c;
  }

  ghost predicate StartsWith(text: string, part: string, eq: (char, char) -> bool) {
    |part| <= |text| && forall i :: 0 <= i < |part| ==> eq(part[i], text[i])
  }

  ghost predicate Includes(text: string, part: string, eq: (char, char) -> bool) {
    exists pos: nat :: pos <= |text| && StartsWith(text[pos..], part, eq)
  }

  lemma {:induction false} PercentMatchesAll(text: string, eq: (char, char) -> bool)
    ensures LikeMatch(text, "%", ESCAPE, eq)
  {
    if text != "" {
      PercentMatchesAll(text[1..], eq);
    } else {
      assert "%"[1..] == "";
    }
  }

  /** An escaped text matches itself and nothing else, whatever follows. */
  lemma {:induction false} EscapedMatchesItself(text: string, part: string, eq: (char, char) -> bool)
    ensures LikeMatch(text, Escaped(part, [ESCAPE] + WILDCARDS, ESCAPE) + "%", ESCAPE, eq) <==>
              StartsWith(text, part, eq)
  {
    var special := [ESCAPE] + WILDCARDS;
    if part == "" {
      assert Escaped(part, special, ESCAPE) + "%" == "%";
      PercentMatchesAll(text, eq);
    } else {
      var rest := Escaped(part[1..], special, ESCAPE) + "%";
      var pattern := Escaped(part, special, ESCAPE) + "%";
      if part[0] in special {
        assert pattern == [ESCAPE, part[0]] + rest && pattern[2..] == rest;
      } else {
        assert pattern == [part[0]] + rest && pattern[1..] == rest;
      }
      if text != "" {
        EscapedMatchesItself(text[1..], part[1..], eq);
        StartsWithFirst(text, part, eq);
      }
    }
  }

  lemma StartsWithFirst(text: string, part: string, eq: (char, char) -> bool)
    requires text != "" && part != ""
    ensures StartsWith(text, part, eq) <==> eq(part[0], text[0]) && StartsWith(text[1..], part[1..], eq)
  {
    if StartsWith(text[1..], part[1..], eq) && eq(part[0], text[0]) {
      forall i | 0 <= i < |part| ensures eq(part[i], text[i]) {
        assert i > 0 ==> eq(part[1..][i - 1], text[1..][i - 1]);
      }
    }
  }

  lemma {:induction false} PercentSkips(text: string, part: string, eq: (char, char) -> bool)
    ensures LikeMatch(text, "%" + Escaped(part, [ESCAPE] + WILDCARDS, ESCAPE) + "%", ESCAPE, eq) <==>
              Includes(text, part, eq)
  {
    var rest := Escaped(part, [ESCAPE] + WILDCARDS, ESCAPE) + "%";
    var pattern := "%" + Escaped(part, [ESCAPE] + WILDCARDS, ESCAPE) + "%";
    assert pattern == "%" + rest && pattern[1..] == rest;
    EscapedMatchesItself(text, part, eq);
    assert text[0..] == text;
    if text != "" {
      PercentSkips(text[1..], part, eq);
      IncludesFirst(text, part, eq);
    } else if Includes(text, part, eq) {
      var pos: nat :| pos <= |text| && StartsWith(text[pos..], part, eq);
    }
  }

  lemma IncludesFirst(text: string, part: string, eq: (char, char) -> bool)
    requires text != ""
    ensures Includes(text, part, eq) <==> StartsWith(text, part, eq) || Includes(text[1..], part, eq)
  {
    assert text[0..] == text;
    if Includes(text, part, eq) {
      var pos: nat :| pos <= |text| && StartsWith(text[pos..], part, eq);
      if pos > 0 { assert text[1..][pos - 1..] == text[pos..]; }
    }
    if Includes(text[1..], part, eq) {
      var pos: nat :| pos <= |text[1..]| && StartsWith(text[1..][pos..], part, eq);
      assert text[1..][pos..] == text[pos + 1..];
    }
  }

  function Decimal(n: nat): (digits: string)
    ensures digits != "" && forall i :: 0 <= i < |digits| ==> '0' <= digits[i] <= '9'
  {
    (if n < 10 then "" else Decimal(n / 10)) + [('0' as int + n % 10) as char]
  }

  /** The number that a row of digits stands for. */
  function Value(digits: string): nat
    requires forall i :: 0 <= i < |digits| ==> '0' <= digits[i] <= '9'
  {
    if digits == "" then 0
    else 10 * Value(digits[..|digits| - 1]) + (digits[|digits| - 1] as int - '0' as int)
  }

  lemma {:induction false} DecimalValue(n: nat)
    ensures Value(Decimal(n)) == n
  {
    if n >= 10 {
      DecimalValue(n / 10);
      assert Decimal(n)[..|Decimal(n)| - 1] == Decimal(n / 10);
    }
  }

  /** The name under which a query refers to a parameter, by its number. */
  function ParamName(n: nat): string { ":d" + Decimal(n) }

  /** No two parameters have the same name. */
  lemma ParamNamesDiffer(m: nat, n: nat)
    ensures ParamName(m) == ParamName(n) <==> m == n
  {
    assert ParamName(m)[2..] == Decimal(m) && ParamName(n)[2..] == Decimal(n);
    DecimalValue(m);
    DecimalValue(n);
  }

  class QueryBuilder {
    /** The parameters by their number; the query text refers to them. */
    var params: seq<string>

    constructor ()
      ensures params == []
    {
      params := [];
    }

    method AddParam(value: string) returns (idx: string)
      modifies this
      ensures params == old(params) + [value] && idx == ParamName(|old(params)|)
    {
      idx := ParamName(|params|);
      params := params + [value];
    }

    static method EscapeWildcards(q: string) returns (str: string)
      ensures str == Escaped(q, [ESCAPE] + WILDCARDS, ESCAPE)
    {
      assert NoneTwice([ESCAPE] + WILDCARDS);
      str := EscapeAll(q, WILDCARDS, ESCAPE);
    }

    /** Unless the caller manages the wildcards, the pattern matches exactly the texts that include the value. */
    method Like(key: string, value: string, hasMatch: bool) returns (query: string)
      modifies this
      ensures |params| == |old(params)| + 1 && params[..|old(params)|] == old(params)
      ensures query == key + " LIKE " + ParamName(|old(params)|) + " ESCAPE '\\'"
      ensures hasMatch ==> params[|old(params)|] == value
      ensures !hasMatch ==>
                forall text, eq :: LikeMatch(text, params[|old(params)|], ESCAPE, eq) <==> Includes(text, value, eq)
    {
      var pattern := value;
      if !hasMatch {
        var escaped := EscapeWildcards(value);
        pattern := "%" + escaped + "%";
        forall text, eq ensures LikeMatch(text, pattern, ESCAPE, eq) <==> Includes(text, value, eq) {
          PercentSkips(text, value, eq);
        }
      }
      var idx := AddParam(pattern);
      query := key + " LIKE " + idx + " ESCAPE '\\'";
    }
  }
}
