/**
 * `escape_for_unix_filename` of src/util.rs: a rewrite that makes arbitrary
 * text usable as a single Unix file name that no command mistakes for an option.
 */
module Util {
  import opened Text

  /** The characters the first pass turns into `_`. */
  predicate IsSpecial(c: char)
  {
    c == '/' || c == '*' || c == '?' || c == ':' || c == '|' || c == '\'' || c == '"' || c == '\0'
  }

  predicate IsLineBreak(c: char)
  {
    c == '\n' || c == '\r'
  }

  function MapSpecial(c: char): char
  {
    if IsSpecial(c) then '_' else c
  }

  /** `.chars().map(..)`: special characters become `_`. */
  function MapChars(s: string): string
  {
    if s == [] then [] else [MapSpecial(s[0])] + MapChars(s[1..])
  }

  /** `.enumerate().map(..)`: a `-` in first position becomes `_`. */
  function GuardLeadingDash(s: string): string
  {
    if s != [] && s[0] == '-' then ['_'] + s[1..] else s
  }

  /** The line-break patterns the loop replaces, in loop order. */
  const LineBreaks: seq<char> := ['\n', '\r']

  /** `s` after replacing each pattern of `pats` in turn by `___`. */
  function ReplaceEach(s: string, pats: seq<char>): string
  {
    if pats == [] then s else Replace(ReplaceEach(s, pats[..|pats| - 1]), pats[|pats| - 1], "___")
  }

  /** Specification of `escape_for_unix_filename`: the collected pipeline, then both line-break replacements. */
  function Escaped(input: string): string
  {
    ReplaceEach(GuardLeadingDash(MapChars(input)), LineBreaks)
  }

  /** `escape_for_unix_filename`. */
  method EscapeForUnixFilename(input: string) returns (result: string)
    ensures result == Escaped(input)
  {
    result := GuardLeadingDash(MapChars(input));
    ghost var collected := result;
    var pats := LineBreaks;
    for k := 0 to |pats|
      invariant result == ReplaceEach(collected, pats[..k])
    {
      result := Replace(result, pats[k], "___");
      assert pats[..k + 1][..k] == pats[..k];
    }
    assert pats[..|pats|] == pats;
  }

  // ---------------------------------------------------------------------------
  // A character-by-character reference

  /** What one input character becomes; `first` marks the first character of the input. */
  function EscapeChar(c: char, first: bool): string
  {
    if IsLineBreak(c) then "___" else if IsSpecial(c) || (first && c == '-') then "_" else [c]
  }

  function EscapeFrom(s: string, first: bool): string
  {
    if s == [] then [] else EscapeChar(s[0], first) + EscapeFrom(s[1..], false)
  }

  /** Both line-break replacements, as the loop applies them. */
  function ReplaceLineBreaks(s: string): string
  {
    Replace(Replace(s, '\n', "___"), '\r', "___")
  }

  lemma ReplaceEachLineBreaks(s: string)
    ensures ReplaceEach(s, LineBreaks) == ReplaceLineBreaks(s)
  {
    assert LineBreaks[..1] == ['\n'] && ['\n'][..0] == [];
    assert ReplaceEach(s, ['\n']) == Replace(s, '\n', "___");
  }

  lemma ReplaceLineBreaksAppend(a: string, b: string)
    ensures ReplaceLineBreaks(a + b) == ReplaceLineBreaks(a) + ReplaceLineBreaks(b)
  {
    ReplaceAppend(a, b, '\n', "___");
    ReplaceAppend(Replace(a, '\n', "___"), Replace(b, '\n', "___"), '\r', "___");
  }

  /** A single character `c'` produced from `c` by the first two passes ends up as `EscapeChar(c, first)`. */
  lemma ReplaceLineBreaksChar(c: char, first: bool)
    ensures ReplaceLineBreaks([if first && MapSpecial(c) == '-' then '_' else MapSpecial(c)]) == EscapeChar(c, first)
  {
    var d := if first && MapSpecial(c) == '-' then '_' else MapSpecial(c);
    ReplaceSingle(d, '\n', "___");
    if d == '\n' {
      ReplaceAbsent("___", '\r', "___");
    } else {
      ReplaceSingle(d, '\r', "___");
    }
  }

  lemma {:induction false} ReplaceLineBreaksMapChars(s: string)
    ensures ReplaceLineBreaks(MapChars(s)) == EscapeFrom(s, false)
  {
    if s != [] {
      ReplaceLineBreaksAppend([MapSpecial(s[0])], MapChars(s[1..]));
      ReplaceLineBreaksChar(s[0], false);
      ReplaceLineBreaksMapChars(s[1..]);
    }
  }

  /** The pipeline equals the character-by-character rewrite. */
  lemma EscapedPerChar(s: string)
    ensures Escaped(s) == EscapeFrom(s, true)
  {
    ReplaceEachLineBreaks(GuardLeadingDash(MapChars(s)));
    if s != [] {
      var c := if MapSpecial(s[0]) == '-' then '_' else MapSpecial(s[0]);
      assert GuardLeadingDash(MapChars(s)) == [c] + MapChars(s[1..]);
      ReplaceLineBreaksAppend([c], MapChars(s[1..]));
      ReplaceLineBreaksChar(s[0], true);
      ReplaceLineBreaksMapChars(s[1..]);
    }
  }

  /** A character that survives escaping unchanged. */
  predicate IsSafe(c: char)
  {
    !IsSpecial(c) && !IsLineBreak(c)
  }

  predicate AllSafe(s: string)
  {
    forall i :: 0 <= i < |s| ==> IsSafe(s[i])
  }

  lemma {:induction false} EscapeFromFacts(s: string, first: bool)
    ensures AllSafe(EscapeFrom(s, first))
    ensures first && s != [] ==> EscapeFrom(s, first) != [] && EscapeFrom(s, first)[0] != '-'
    ensures |EscapeFrom(s, first)| == |s| + 2 * (Count(s, '\n') + Count(s, '\r'))
  {
    if s != [] {
      EscapeFromFacts(s[1..], false);
      var head, tail := EscapeChar(s[0], first), EscapeFrom(s[1..], false);
      assert EscapeFrom(s, first) == head + tail;
      assert forall i :: 0 <= i < |head + tail| ==> (head + tail)[i] == if i < |head| then head[i] else tail[i - |head|];
    }
  }

  /**
   * The escaped name holds none of `/ * ? : | ' " \0`, no line break, does not
   * start with `-`, and is longer than the input by two characters per line break.
   */
  lemma EscapedIsSafe(s: string)
    ensures AllSafe(Escaped(s))
    ensures s != [] ==> Escaped(s) != [] && Escaped(s)[0] != '-'
    ensures s == [] ==> Escaped(s) == []
    ensures |Escaped(s)| == |s| + 2 * (Count(s, '\n') + Count(s, '\r'))
  {
    EscapedPerChar(s);
    EscapeFromFacts(s, true);
  }

  /** Text already safe (and, in first position, not `-`) is left as it is. */
  lemma {:induction false} EscapeFromSafe(s: string, first: bool)
    requires AllSafe(s)
    requires first && s != [] ==> s[0] != '-'
    ensures EscapeFrom(s, first) == s
  {
    if s != [] {
      EscapeFromSafe(s[1..], false);
      assert s == [s[0]] + s[1..];
    }
  }

  /** Escaping twice is escaping once. */
  lemma EscapedIdempotent(s: string)
    ensures Escaped(Escaped(s)) == Escaped(s)
  {
    EscapedIsSafe(s);
    EscapedPerChar(Escaped(s));
    EscapeFromSafe(Escaped(s), true);
  }

  lemma EscapedExample()
    ensures Escaped("-a/b\nc") == "_a_b___c"
  {
    EscapedPerChar("-a/b\nc");
  }
}
