// The text sanitizer (sanitizers/text.c): it takes off a leading byte order mark and nothing else.
module TextSanitizer {
  import opened Bytes

  const BOM: bytes := [0xEF, 0xBB, 0xBF]

  datatype TextResult = TextClean | TextModified(output: bytes) | TextError

  /** The text behind its mark, if it has one. */
  function Stripped(text: bytes): Option<bytes> {
    if BOM <= text then Some(text[|BOM|..]) else None
  }

  /** Clean exactly without a mark; with one, the output is what stands behind it, unless there is no
      memory for it. */
  method SanitizeText(text: bytes, haveMemory: bool) returns (r: TextResult)
    ensures r.TextClean? <==> !(BOM <= text)
    ensures r.TextError? <==> BOM <= text && !haveMemory
    ensures r.TextModified? ==> text == BOM + r.output && (r.output == [] <==> text == BOM)
  {
    if |text| == 0 {
      return TextClean;
    }
    if |text| >= 3 && text[..3] == BOM {
      var newLen := |text| - 3;
      if !haveMemory {
        return TextError;
      }
      if newLen == 0 {
        assert text == BOM + [];
        return TextModified([]);
      }
      return TextModified(text[3..]);
    }
    return TextClean;
  }

  /** The one text that is changed into nothing is the mark alone. */
  lemma NothingLeftExactly(text: bytes)
    ensures Stripped(text) == Some([]) <==> text == BOM
  {
    if BOM <= text {
      assert text == BOM + text[3..];
    }
  }

  /** What is left is sanitized to itself exactly when the text did not start with two marks. */
  lemma StrippedTwice(text: bytes)
    requires Stripped(text).Some?
    ensures Stripped(Stripped(text).value).None? <==> !(BOM + BOM <= text)
  {
    assert text == BOM + text[3..];
    assert BOM <= text[3..] ==> text[3..] == BOM + text[6..];
    if BOM + BOM <= text {
      assert text[..6] == BOM + BOM;
      assert text[3..6] == BOM;
    }
  }
}
