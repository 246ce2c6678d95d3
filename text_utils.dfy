/**
 * The text normaliser of src/utils/text-utils.ts: lower-case the sentence,
 * delete its whitespace, split it into characters and replace every
 * character that is a key of a constant table by the table's value.
 *
 * The pipeline is written once, over an arbitrary table, because
 * src/lib/utils/text-utils.ts runs the same chain with a larger table
 * (module LibTextUtils).
 */
module TextUtils {
  import opened Chars

  /** `toLowerCase()` on a whole string.  Its contract and that of
      `ReplaceAll` only say what each position holds: they are the building
      blocks from which `NormalizeAt` and `NormalizeFrom` derive the
      properties of the whole chain. */
  function ToLower(s: string): (r: string)
    ensures |r| == |s|
    ensures forall i :: 0 <= i < |s| ==> r[i] == ToLowerChar(s[i])
  {
    seq(|s|, i requires 0 <= i < |s| => ToLowerChar(s[i]))
  }

  /** How many characters of `s` are not whitespace. */
  function NonWhitespaceCount(s: string): nat
  {
    if s == [] then 0
    else (if IsWhitespace(s[0]) then 0 else 1) + NonWhitespaceCount(s[1..])
  }

  /** `.replace(/\s*\/g, "")`: the non-whitespace characters of `s`, in order. */
  function StripWhitespace(s: string): (r: string)
    ensures |r| == NonWhitespaceCount(s)
    ensures forall j :: 0 <= j < |r| ==> !IsWhitespace(r[j])
  {
    if s == [] then []
    else (if IsWhitespace(s[0]) then [] else [s[0]]) + StripWhitespace(s[1..])
  }

  /** `table.get(c) ?? c`. */
  function Lookup(table: map<char, char>, c: char): char
  {
    if c in table then table[c] else c
  }

  /** `.split("").map((char) => table.get(char) ?? char)`. */
  function ReplaceAll(table: map<char, char>, s: string): (r: string)
    ensures |r| == |s|
    ensures forall i :: 0 <= i < |s| ==> r[i] == Lookup(table, s[i])
  {
    seq(|s|, i requires 0 <= i < |s| => Lookup(table, s[i]))
  }

  /** The whole chain of src/utils/text-utils.ts:14-18 over `table`: one
      output character per non-whitespace input character, and no
      whitespace in the output as long as no table value is whitespace.
      Where each character lands is stated by `NormalizeAt` and
      `NormalizeFrom`. */
  function NormalizeWith(table: map<char, char>, sentence: string): (r: string)
    ensures |r| == NonWhitespaceCount(sentence)
    ensures PlainTable(table) ==> forall j :: 0 <= j < |r| ==> !IsWhitespace(r[j])
  {
    LowerKeepsWhitespace(sentence);
    ReplaceAll(table, StripWhitespace(ToLower(sentence)))
  }

  /** No table value is whitespace. */
  predicate PlainTable(table: map<char, char>)
  {
    forall k :: k in table ==> !IsWhitespace(table[k])
  }

  /** Lower-casing never turns whitespace into non-whitespace or back. */
  lemma LowerKeepsWhitespace(s: string)
    ensures NonWhitespaceCount(ToLower(s)) == NonWhitespaceCount(s)
  {
    if s != [] {
      assert ToLower(s)[1..] == ToLower(s[1..]);
      LowerKeepsWhitespace(s[1..]);
    }
  }

  /** Stripping keeps the order: the non-whitespace character at index `i`
      lands at the position given by the count of non-whitespace before it. */
  lemma {:induction false} StripAt(s: string, i: nat)
    requires i < |s| && !IsWhitespace(s[i])
    ensures NonWhitespaceCount(s[..i]) < |StripWhitespace(s)|
    ensures StripWhitespace(s)[NonWhitespaceCount(s[..i])] == s[i]
  {
    if i > 0 {
      assert s[..i][1..] == s[1..][..i - 1];
      assert s[..i][0] == s[0];
      StripAt(s[1..], i - 1);
    }
  }

  /** A string without whitespace is left as it is. */
  lemma {:induction false} StripPlain(s: string)
    requires forall i :: 0 <= i < |s| ==> !IsWhitespace(s[i])
    ensures StripWhitespace(s) == s
  {
    if s != [] {
      StripPlain(s[1..]);
      assert s == [s[0]] + s[1..];
    }
  }

  /** Every character the stripping keeps is a non-whitespace character of
      the input. */
  lemma {:induction false} StripFrom(s: string, j: nat)
    requires j < |StripWhitespace(s)|
    ensures exists i :: 0 <= i < |s| && !IsWhitespace(s[i]) && StripWhitespace(s)[j] == s[i]
  {
    if IsWhitespace(s[0]) {
      StripFrom(s[1..], j);
      var i :| 0 <= i < |s[1..]| && !IsWhitespace(s[1..][i]) && StripWhitespace(s[1..])[j] == s[1..][i];
      assert s[i + 1] == s[1..][i];
    } else if j > 0 {
      StripFrom(s[1..], j - 1);
      var i :| 0 <= i < |s[1..]| && !IsWhitespace(s[1..][i]) && StripWhitespace(s[1..])[j - 1] == s[1..][i];
      assert s[i + 1] == s[1..][i];
    } else {
      assert StripWhitespace(s)[0] == s[0];
    }
  }

  /** Order is kept: the i-th input character, if not whitespace, appears
      lower-cased and looked up at the position counting the non-whitespace
      characters before it. */
  lemma NormalizeAt(table: map<char, char>, sentence: string, i: nat)
    requires i < |sentence| && !IsWhitespace(sentence[i])
    ensures NonWhitespaceCount(sentence[..i]) < |NormalizeWith(table, sentence)|
    ensures NormalizeWith(table, sentence)[NonWhitespaceCount(sentence[..i])]
            == Lookup(table, ToLowerChar(sentence[i]))
  {
    var low := ToLower(sentence);
    assert ToLower(sentence[..i]) == low[..i];
    LowerKeepsWhitespace(sentence[..i]);
    StripAt(low, i);
  }

  /** Every output character is the table image of, or (when not a key) the
      lower-cased copy of, some non-whitespace input character. */
  lemma NormalizeFrom(table: map<char, char>, sentence: string, j: nat)
    requires j < |NormalizeWith(table, sentence)|
    ensures exists i :: 0 <= i < |sentence| && !IsWhitespace(sentence[i]) &&
              NormalizeWith(table, sentence)[j] == Lookup(table, ToLowerChar(sentence[i]))
  {
    var low := ToLower(sentence);
    StripFrom(low, j);
    var i :| 0 <= i < |low| && !IsWhitespace(low[i]) && StripWhitespace(low)[j] == low[i];
    assert !IsWhitespace(sentence[i]);
  }

  /** The table of src/utils/text-utils.ts:3-11.  The keys at lines 5, 6 and
      8 are lost glyphs and are not part of this table. */
  const ReplacementMap: map<char, char> := map['\U{2192}' := IMPL, '~' := NOT]

  /** `normalizeSentence`: total, never fails, one output character per
      non-whitespace input character and no whitespace in the output. */
  function NormalizeSentence(sentence: string): (r: string)
    ensures |r| == NonWhitespaceCount(sentence)
    ensures forall j :: 0 <= j < |r| ==> !IsWhitespace(r[j])
  {
    NormalizeWith(ReplacementMap, sentence)
  }

  /** `~` becomes NOT, the arrow becomes IMPL and any other non-whitespace
      character comes out only lower-cased (`P` becomes `p`), in place. */
  lemma NormalizeSentenceAt(sentence: string, i: nat)
    requires i < |sentence| && !IsWhitespace(sentence[i])
    ensures NonWhitespaceCount(sentence[..i]) < |NormalizeSentence(sentence)|
    ensures var c := NormalizeSentence(sentence)[NonWhitespaceCount(sentence[..i])];
            && (sentence[i] == '~' ==> c == NOT)
            && (sentence[i] == '\U{2192}' ==> c == IMPL)
            && (sentence[i] != '~' && sentence[i] != '\U{2192}' ==> c == ToLowerChar(sentence[i]))
  {
    NormalizeAt(ReplacementMap, sentence, i);
  }
}
