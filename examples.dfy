/** Small worked cases of the handler's string rules. */
module Examples {
  import opened Wrappers
  import opened PyStr
  import opened Sections
  import opened Handlers

  /** A label matches its marker whatever the spaces around it ... */
  lemma MarkerIgnoresSpaces()
    ensures Marker(" answer ") == "**answer**"
  {
    assert TrimStart(" answer ") == "answer ";
    assert TrimEnd("answer ") == "answer";
    assert Lower("answer") == "answer";
  }

  /** ... and whatever its case. */
  lemma MarkerIgnoresCase()
    ensures Marker("ANSWER") == "**answer**"
  {
    assert Strip("ANSWER") == "ANSWER";
    assert Lower("ANSWER") == "answer";
  }

  /** The colon normalisation is one pass: `**::` keeps one colon. */
  lemma ColonExample()
    ensures NormalizeColons("**::") == "**:"
  {
  }

  /** A blank question is refused; another is trimmed and gets the
      default labels. */
  lemma ValidateExample()
    ensures ValidateRequest(Some(" \t "), None) == Err(NoQuestion)
    ensures ValidateRequest(None, Some(["A"])) == Err(NoQuestion)
    ensures ValidateRequest(Some(" q "), None) == Ok(Request("q", DefaultSections))
  {
    assert TrimStart(" q ") == "q ";
    assert TrimEnd("q ") == "q";
  }

  /** A 61-character question loses its last character to "...". */
  lemma TitleExample()
    ensures Title("0123456789012345678901234567890123456789012345678901234567890")
      == "012345678901234567890123456789012345678901234567890123456789..."
  {
  }
}
