/**
 * The label printed next to each accessory toggle of the controls panel.
 *
 * A well-known accessory id has a fixed label. Any other id is turned into
 * a label by the chain `replace(/[^a-zA-Z0-9]/g, ' ')`,
 * `replace(/_/g, ' ')`, `split(' ')`, "upper-case the first character of
 * each word", `join(' ')`. That chain is modelled step by step below and then
 * proved equal to a character-by-character description of the label.
 */
module AccessoryLabels {

  import opened Wrappers

  /** The fixed labels for well-known accessory ids. */
  const AccessoryLabelTable: map<string, string> := map[
    "wheel" := "Wheels",
    "rim" := "Rims",
    "spoiler" := "Spoiler",
    "bumper" := "Bumper",
    "wing" := "Wing",
    "light" := "Extra Lights",
    "window_tint" := "Window Tint",
    "roof_rack" := "Roof Rack",
    "antenna" := "Antenna",
    "exhaust" := "Exhaust"
  ]

  /** The character class `[a-zA-Z0-9]`. */
  predicate IsAsciiAlnum(c: char) {
    'a' <= c <= 'z' || 'A' <= c <= 'Z' || '0' <= c <= '9'
  }

  /**
   * `toUpperCase` on one character. Only ASCII letters and digits reach it in
   * a generated label, so only the ASCII lower-case letters change.
   */
  function UpperAscii(c: char): char {
    if 'a' <= c <= 'z' then (c as int - 32) as char else c
  }

  /** `s.replace(/[^a-zA-Z0-9]/g, ' ')` */
  function BlankNonAlnum(s: string): string {
    seq(|s|, i requires 0 <= i < |s| => if IsAsciiAlnum(s[i]) then s[i] else ' ')
  }

  /** `s.replace(/_/g, ' ')` */
  function BlankUnderscores(s: string): string {
    seq(|s|, i requires 0 <= i < |s| => if s[i] == '_' then ' ' else s[i])
  }

  /**
   * `s.split(sep)` for a one-character separator: the pieces between the
   * separators, empty pieces included, so there is always at least one.
   */
  function Split(s: string, sep: char): (words: seq<string>)
    ensures |words| >= 1
  {
    if s == [] then [[]]
    else if s[0] == sep then [[]] + Split(s[1..], sep)
    else
      var rest := Split(s[1..], sep);
      [[s[0]] + rest[0]] + rest[1..]
  }

  /** `words.join(sep)` */
  function Join(words: seq<string>, sep: char): string {
    if |words| == 0 then []
    else if |words| == 1 then words[0]
    else words[0] + [sep] + Join(words[1..], sep)
  }

  /** `word.charAt(0).toUpperCase() + word.slice(1)` */
  function CapitalizeWord(word: string): string {
    if word == [] then [] else [UpperAscii(word[0])] + word[1..]
  }

  /** `words.map(CapitalizeWord)` */
  function CapitalizeWords(words: seq<string>): (r: seq<string>)
    ensures |r| == |words|
  {
    if words == [] then [] else [CapitalizeWord(words[0])] + CapitalizeWords(words[1..])
  }

  /** The label built from an id that has no fixed label. */
  function GeneratedLabel(id: string): string {
    Join(CapitalizeWords(Split(BlankUnderscores(BlankNonAlnum(id)), ' ')), ' ')
  }

  /**
   * Reference description of the label, character by character: a position
   * holding anything but an ASCII letter or digit becomes a space; a letter
   * at the start, or right after such a position, is upper-cased; every other
   * letter or digit is kept.
   */
  function ExpectedLabelChar(id: string, i: nat): char
    requires i < |id|
  {
    if !IsAsciiAlnum(id[i]) then ' '
    else if i == 0 || !IsAsciiAlnum(id[i - 1]) then UpperAscii(id[i])
    else id[i]
  }

  /**
   * `getAccessoryLabel`: the fixed label when the table has a truthy
   * (non-empty) entry for the id, the generated label otherwise.
   */
  function AccessoryLabel(id: string): (text: string)
    ensures id in AccessoryLabelTable ==> text == AccessoryLabelTable[id]
    ensures id !in AccessoryLabelTable ==>
      && |text| == |id|
      && (forall i :: 0 <= i < |id| ==> (text[i] == ' ' <==> !IsAsciiAlnum(id[i])))
      && (forall i :: 0 <= i < |id| ==> text[i] == ExpectedLabelChar(id, i))
  {
    match Get(AccessoryLabelTable, id)
    case Some(fixed) =>
      if fixed != "" then fixed else GeneratedLabel(id)
    case None =>
      GeneratedLabelShape(id);
      GeneratedLabel(id)
  }

  /** Capitalized(s, atStart): upper-case s[0] when atStart, and each character right after a space. */
  function Capitalized(s: string, atStart: bool): (r: string)
  {
    if s == [] then []
    else [if atStart then UpperAscii(s[0]) else s[0]] + Capitalized(s[1..], s[0] == ' ')
  }

  /** Splitting on a separator and joining back with it gives the text back; no piece holds the separator. */
  lemma {:induction false} SplitJoinRoundTrip(s: string, sep: char)
    ensures Join(Split(s, sep), sep) == s
    ensures forall k :: 0 <= k < |Split(s, sep)| ==> sep !in Split(s, sep)[k]
  {
    if s == [] {
    } else {
      var rest := Split(s[1..], sep);
      SplitJoinRoundTrip(s[1..], sep);
      if s[0] == sep {
        assert Split(s, sep) == [[]] + rest;
        assert Split(s, sep)[1..] == rest;
        assert Join(Split(s, sep), sep) == [] + [sep] + Join(rest, sep);
        assert s == [s[0]] + s[1..];
      } else {
        assert Split(s, sep) == [[s[0]] + rest[0]] + rest[1..];
        JoinPrefix([s[0]], rest[0], rest[1..], sep);
        assert [rest[0]] + rest[1..] == rest;
        assert s == [s[0]] + s[1..];
        forall k | 0 <= k < |Split(s, sep)|
          ensures sep !in Split(s, sep)[k]
        {
          if k == 0 {
            assert Split(s, sep)[0] == [s[0]] + rest[0];
          } else {
            assert Split(s, sep)[k] == rest[k];
          }
        }
      }
    }
  }

  /** A prefix glued to the first word comes out in front of the whole join. */
  lemma JoinPrefix(p: string, w: string, rest: seq<string>, sep: char)
    ensures Join([p + w] + rest, sep) == p + Join([w] + rest, sep)
  {
    if rest != [] {
      assert ([p + w] + rest)[1..] == rest;
      assert ([w] + rest)[1..] == rest;
    }
  }

  /**
   * Joining the capitalized words of `Split(s, ' ')` upper-cases exactly the
   * first character and every character after a space; leaving the first
   * word alone upper-cases only those after a space.
   */
  lemma {:induction false} CapitalizedJoin(s: string)
    ensures Join(CapitalizeWords(Split(s, ' ')), ' ') == Capitalized(s, true)
    ensures Join([Split(s, ' ')[0]] + CapitalizeWords(Split(s, ' ')[1..]), ' ') == Capitalized(s, false)
  {
    if s == [] {
    } else {
      var rest := Split(s[1..], ' ');
      var caps := CapitalizeWords(rest[1..]);
      CapitalizedJoin(s[1..]);
      if s[0] == ' ' {
        var words := [[]] + rest;
        assert Split(s, ' ') == words;
        assert words[1..] == rest;
        assert CapitalizeWords(words) == [[]] + CapitalizeWords(rest);
        assert ([[]] + CapitalizeWords(rest))[1..] == CapitalizeWords(rest);
        assert ([[]] + CapitalizeWords(rest))[0] == [];
      } else {
        var first := [s[0]] + rest[0];
        var words := [first] + rest[1..];
        assert Split(s, ' ') == words;
        assert words[1..] == rest[1..];
        assert CapitalizeWords(words) == [CapitalizeWord(first)] + caps;
        assert CapitalizeWord(first) == [UpperAscii(s[0])] + rest[0];
        assert [rest[0]] + rest[1..] == rest;
        JoinPrefix([UpperAscii(s[0])], rest[0], caps, ' ');
        JoinPrefix([s[0]], rest[0], caps, ' ');
      }
    }
  }

  /** The reference description of `Capitalized`, one position at a time. */
  lemma {:induction false} CapitalizedAt(s: string, atStart: bool, i: nat)
    requires i < |s|
    ensures |Capitalized(s, atStart)| == |s|
    ensures Capitalized(s, atStart)[i] ==
      if (if i == 0 then atStart else s[i - 1] == ' ') then UpperAscii(s[i]) else s[i]
  {
    if i == 0 {
      CapitalizedLength(s, atStart);
    } else {
      CapitalizedAt(s[1..], s[0] == ' ', i - 1);
    }
  }

  lemma {:induction false} CapitalizedLength(s: string, atStart: bool)
    ensures |Capitalized(s, atStart)| == |s|
  {
    if s != [] {
      CapitalizedLength(s[1..], s[0] == ' ');
    }
  }

  /** The generated label agrees with the reference description at every position. */
  lemma GeneratedLabelAt(id: string, i: nat)
    requires i < |id|
    ensures |GeneratedLabel(id)| == |id|
    ensures GeneratedLabel(id)[i] == ExpectedLabelChar(id, i)
  {
    var t := BlankUnderscores(BlankNonAlnum(id));
    CapitalizedJoin(t);
    CapitalizedAt(t, true, i);
    assert t[i] == if IsAsciiAlnum(id[i]) then id[i] else ' ';
    if i > 0 {
      assert t[i - 1] == if IsAsciiAlnum(id[i - 1]) then id[i - 1] else ' ';
    }
  }

  lemma GeneratedLabelShape(id: string)
    ensures |GeneratedLabel(id)| == |id|
    ensures forall i :: 0 <= i < |id| ==> GeneratedLabel(id)[i] == ExpectedLabelChar(id, i)
  {
    if id == [] {
      assert BlankUnderscores(BlankNonAlnum(id)) == [];
    } else {
      GeneratedLabelAt(id, 0);
    }
    forall i | 0 <= i < |id|
      ensures GeneratedLabel(id)[i] == ExpectedLabelChar(id, i)
    {
      GeneratedLabelAt(id, i);
    }
  }
}
