/** formatter/formatter.go: the pipeline that turns a raw itinerary into
    its printable form. Line breaks are normalised and blank lines
    collapsed first, so that the airport and date passes see the final
    line structure; the spacing inside lines is tidied last, after the
    names and dates have been put in. */
module Formatter {
  import opened Text
  import opened Whitespace
  import opened Airports
  import opened Regex
  import opened AirportCodes
  import opened Dates

  /** `TextFormatter.Prettify`: every line of the result is clean, that is
      it has no tab, no two spaces in a row and no white space at either
      end. */
  function Prettify(text: string, svc: Service): (r: string)
    ensures forall k :: 0 <= k < |Split(r)| ==> IsCleanLine(Split(r)[k])
  {
    var converted := ConvertControlChars(text);
    var collapsed := CollapseBlankLines(converted);
    var named := ReplaceAirportCodes(collapsed, svc);
    var dated := ReplaceTimesThenDates(named);
    TrimExcessiveWhitespaceSpec(dated);
    TrimExcessiveWhitespace(dated)
  }

  /** The whitespace stages alone, with nothing to rewrite in between. */
  function TidyWhitespace(text: string): string {
    TrimExcessiveWhitespace(CollapseBlankLines(ConvertControlChars(text)))
  }

  /** A text with no `#` holds no airport code and a text with no `(` holds
      no date or time token, so such a text is only tidied, whatever the
      service knows. */
  lemma PrettifyPlainText(text: string, svc: Service)
    requires '#' !in text && '(' !in text
    ensures Prettify(text, svc) == TidyWhitespace(text)
  {
    var converted := ConvertControlChars(text);
    var collapsed := CollapseBlankLines(converted);
    assert '#' !in converted && '(' !in converted;
    assert '#' !in collapsed by {
      if '#' in collapsed { CollapseBlankLinesChars(converted, '#'); }
    }
    assert '(' !in collapsed by {
      if '(' in collapsed { CollapseBlankLinesChars(converted, '('); }
    }
    ReplaceAirportCodesWithoutHash(collapsed, svc);
    NotContainsWithout(collapsed, "T12(", 3);
    NotContainsWithout(collapsed, "T24(", 3);
    NotContainsWithout(collapsed, "D(", 1);
    ReplaceTimesThenDatesWithoutTokens(collapsed);
  }

  /** More generally, a text in which the service knows no code the
      airport patterns can match, and which holds no opening `T12(`,
      `T24(` or `D(`, is only tidied. */
  lemma PrettifyNothingToRewrite(text: string, svc: Service)
    requires forall m :: (IsToken(IcaoToken, m) || IsToken(IataToken, m)) ==>
                           TrimRightCut(m) !in GetAll(svc.repo)
    requires !Contains(text, "T12(") && !Contains(text, "T24(") && !Contains(text, "D(")
    ensures Prettify(text, svc) == TidyWhitespace(text)
  {
    var converted := ConvertControlChars(text);
    var collapsed := CollapseBlankLines(converted);
    LineStagesAddNoCall(text, "T12(");
    LineStagesAddNoCall(text, "T24(");
    LineStagesAddNoCall(text, "D(");
    ReplaceAirportCodesIdentity(collapsed, svc);
    ReplaceTimesThenDatesWithoutTokens(collapsed);
  }

  /** A text of nothing but white space comes out empty. */
  lemma PrettifyOfSpace(text: string, svc: Service)
    requires AllSpace(text)
    ensures Prettify(text, svc) == []
  {
    var converted := ConvertControlChars(text);
    assert AllSpace(converted);
    CollapseBlankLinesOfSpace(converted);
  }

  /** Tidying twice is tidying once. */
  lemma TidyWhitespaceIdempotent(text: string)
    ensures TidyWhitespace(TidyWhitespace(text)) == TidyWhitespace(text)
  {
    var converted := ConvertControlChars(text);
    var collapsed := CollapseBlankLines(converted);
    var tidy := TrimExcessiveWhitespace(collapsed);
    forall i | 0 <= i < |tidy| ensures !IsLineControl(tidy[i]) {
      var c := tidy[i];
      TrimExcessiveWhitespaceChars(collapsed, c);
      if c != ' ' && c != '\n' {
        CollapseBlankLinesChars(converted, c);
      }
    }
    assert ConvertControlChars(tidy) == tidy;
    CollapseOfTrimmedCollapsed(converted);
    TrimExcessiveWhitespaceIdempotent(collapsed);
  }

  /** Tidying brings in no character except the space and the line break. */
  lemma TidyWhitespaceChars(text: string, c: char)
    requires c in TidyWhitespace(text) && c != ' ' && c != '\n'
    ensures c in text
  {
    var converted := ConvertControlChars(text);
    var collapsed := CollapseBlankLines(converted);
    TrimExcessiveWhitespaceChars(collapsed, c);
    CollapseBlankLinesChars(converted, c);
    var i :| 0 <= i < |converted| && converted[i] == c;
  }

  /** Prettifying once more changes nothing in a text that has no airport
      code and no date or time token. */
  lemma PrettifyPlainTextIdempotent(text: string, svc: Service)
    requires '#' !in text && '(' !in text
    ensures Prettify(Prettify(text, svc), svc) == Prettify(text, svc)
  {
    PrettifyPlainText(text, svc);
    var tidy := TidyWhitespace(text);
    if '#' in tidy { TidyWhitespaceChars(text, '#'); }
    if '(' in tidy { TidyWhitespaceChars(text, '('); }
    PrettifyPlainText(tidy, svc);
    TidyWhitespaceIdempotent(text);
  }
}
