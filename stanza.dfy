/**
 The input side of apt-world: parsed stanzas (one key/value map per paragraph
 of a dpkg-style file), the outcome of reading a whole file, and Python's
 substring test `pattern in text`, which the status filter relies on.
 */
module Stanzas {

  datatype Option<+T> = None | Some(value: T)

  /** One paragraph of a dpkg status or apt extended_states file. */
  type Stanza = map<string, string>

  /**
   What iterating over the paragraphs of a file produced. `Complete` is a
   read that reached the end; `Broken` is a read that raised an exception
   after delivering `stanzas` (an open that fails delivers none).
   */
  datatype Source = Complete(stanzas: seq<Stanza>) | Broken(stanzas: seq<Stanza>)

  /** A source that could not even be opened (missing file, no permission). */
  const Unopenable: Source := Broken([])

  /** `text` has `pattern` as a prefix. */
  predicate StartsWith(text: string, pattern: string)
  {
    |pattern| <= |text| && text[..|pattern|] == pattern
  }

  /** Python's `pattern in text` for strings: try every start position in turn. */
  predicate Contains(text: string, pattern: string)
    decreases |text|
  {
    StartsWith(text, pattern) || (|text| > 0 && Contains(text[1..], pattern))
  }

  /** Reference definition of substring occurrence: some window of `text` equals `pattern`. */
  ghost predicate OccursAt(text: string, pattern: string, i: int)
  {
    0 <= i && i + |pattern| <= |text| && text[i..i + |pattern|] == pattern
  }

  /** The scanning test agrees with the reference definition, in both directions. */
  lemma {:induction false} ContainsIffOccurs(text: string, pattern: string)
    ensures Contains(text, pattern) <==> exists i :: OccursAt(text, pattern, i)
    decreases |text|
  {
    if StartsWith(text, pattern) {
      assert OccursAt(text, pattern, 0);
    } else if |text| == 0 {
    } else {
      ContainsIffOccurs(text[1..], pattern);
      if Contains(text[1..], pattern) {
        var i :| OccursAt(text[1..], pattern, i);
        assert text[1..][i..i + |pattern|] == text[i + 1..i + 1 + |pattern|];
        assert OccursAt(text, pattern, i + 1);
      }
      if exists i :: OccursAt(text, pattern, i) {
        var i :| OccursAt(text, pattern, i);
        assert text[1..][i - 1..i - 1 + |pattern|] == text[i..i + |pattern|];
        assert OccursAt(text[1..], pattern, i - 1);
      }
    }
  }

  /** The substring test looks at every position: an occurrence anywhere is found. */
  lemma ContainsAt(text: string, pattern: string, i: int)
    requires OccursAt(text, pattern, i)
    ensures Contains(text, pattern)
  {
    ContainsIffOccurs(text, pattern);
  }

  /** A text in which the pattern's first character is never followed by its second cannot contain a pattern that starts with that pair. */
  lemma {:induction false} NoPairNoContains(text: string, pattern: string)
    requires |pattern| >= 2
    requires forall k :: 0 <= k < |text| - 1 ==> !(text[k] == pattern[0] && text[k + 1] == pattern[1])
    ensures !Contains(text, pattern)
  {
    forall i | 0 <= i && i + |pattern| <= |text|
      ensures !OccursAt(text, pattern, i)
    {
      var w := text[i..i + |pattern|];
      assert w[0] == text[i] && w[1] == text[i + 1];
      assert w[0] != pattern[0] || w[1] != pattern[1];
    }
    ContainsIffOccurs(text, pattern);
  }
}
