/**
 * The normaliser of src/lib/utils/text-utils.ts: the same chain as
 * TextUtils.NormalizeWith, with a table that also maps `v`, `i` and `>`.
 */
module LibTextUtils {
  import opened Chars
  import opened TextUtils

  /** The table of src/lib/utils/text-utils.ts:3-14.  The keys at lines 5,
      6 and 11 are lost glyphs and are not part of this table. */
  const LibReplacementMap: map<char, char> :=
    map['v' := OR, 'i' := AND, '>' := IMPL, '\U{2192}' := IMPL, '~' := NOT]

  /** `normalizeAndSplitChars`: one output character per non-whitespace input
      character and no whitespace in the output. */
  function NormalizeAndSplitChars(sentence: string): (r: string)
    ensures |r| == NonWhitespaceCount(sentence)
    ensures forall j :: 0 <= j < |r| ==> !IsWhitespace(r[j])
  {
    NormalizeWith(LibReplacementMap, sentence)
  }

  /** Lower-casing comes before the lookup, so `v` and `V` both become OR and
      `i` and `I` both become AND; `>` and the arrow become IMPL, `~` becomes
      NOT, and every other character comes out only lower-cased. */
  lemma NormalizeAndSplitCharsAt(sentence: string, i: nat)
    requires i < |sentence| && !IsWhitespace(sentence[i])
    ensures NonWhitespaceCount(sentence[..i]) < |NormalizeAndSplitChars(sentence)|
    ensures var c := NormalizeAndSplitChars(sentence)[NonWhitespaceCount(sentence[..i])];
            && (sentence[i] in {'v', 'V'} ==> c == OR)
            && (sentence[i] in {'i', 'I'} ==> c == AND)
            && (sentence[i] in {'>', '\U{2192}'} ==> c == IMPL)
            && (sentence[i] == '~' ==> c == NOT)
            && (ToLowerChar(sentence[i]) !in LibReplacementMap ==> c == ToLowerChar(sentence[i]))
  {
    NormalizeAt(LibReplacementMap, sentence, i);
  }

  /** Neither `i` nor `v`, in either case, can survive as a variable name. */
  lemma NoVariableNamedIOrV(sentence: string)
    ensures forall j :: 0 <= j < |NormalizeAndSplitChars(sentence)| ==>
              NormalizeAndSplitChars(sentence)[j] !in {'i', 'I', 'v', 'V'}
  {
    forall j | 0 <= j < |NormalizeAndSplitChars(sentence)|
      ensures NormalizeAndSplitChars(sentence)[j] !in {'i', 'I', 'v', 'V'}
    {
      NormalizeFrom(LibReplacementMap, sentence, j);
    }
  }

  /** The two copies of the normaliser agree on every sentence that contains
      none of the extra keys `v`, `i`, `>` (in either case). */
  lemma {:induction false} CopiesAgree(sentence: string)
    requires forall i :: 0 <= i < |sentence| ==> ToLowerChar(sentence[i]) !in {'v', 'i', '>'}
    ensures NormalizeAndSplitChars(sentence) == NormalizeSentence(sentence)
  {
    var low := StripWhitespace(ToLower(sentence));
    forall j | 0 <= j < |low|
      ensures Lookup(LibReplacementMap, low[j]) == Lookup(ReplacementMap, low[j])
    {
      StripFrom(ToLower(sentence), j);
    }
  }
}
