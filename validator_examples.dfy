/**
 * The cases of the validator unit tests, stated against the model, a few per lemma, and
 * some malformed literals made only of digits, signs and points, which convert to NaN.
 */
module ValidatorExamples {
  import opened Wrappers
  import opened JsValues
  import opened NumberConversion
  import opened Validators

  lemma TitleExample()
    ensures IsValidTitle(JsString("Valid Title"))
  {
    ValidTitleIff(JsString("Valid Title"));
    assert !IsWhitespace("Valid Title"[0]);
  }

  lemma SpacePaddedTitleExample()
    ensures IsValidTitle(JsString("  Valid  "))
  {
    var s := "  Valid  ";
    assert !AllWhitespace(s) by { assert !IsWhitespace(s[2]); }
    ValidTitleIff(JsString(s));
  }

  lemma TabPaddedTitleExample()
    ensures IsValidTitle(JsString("\tValid\t"))
  {
    var s := "\tValid\t";
    assert !AllWhitespace(s) by { assert !IsWhitespace(s[1]); }
    ValidTitleIff(JsString(s));
  }

  lemma EmptyTitleExample()
    ensures !IsValidTitle(JsString(""))
  {
  }

  lemma SpacesTitleExample()
    ensures !IsValidTitle(JsString("   "))
  {
    ValidTitleIff(JsString("   "));
  }

  lemma TabTitleExample()
    ensures !IsValidTitle(JsString("\t"))
  {
    ValidTitleIff(JsString("\t"));
  }

  lemma NewlineTitleExample()
    ensures !IsValidTitle(JsString("\n"))
  {
    ValidTitleIff(JsString("\n"));
  }

  lemma NonStringTitleExamples()
    ensures !IsValidTitle(JsNull) && !IsValidTitle(JsUndefined) && !IsValidTitle(JsNumber(123.0))
    ensures !IsValidTitle(JsObject(map[])) && !IsValidTitle(JsArray([]))
  {
  }

  lemma NumericIdExamples()
    ensures IsValidId(JsNumber(1.0)) && IsValidId(JsNumber(999999.0)) && IsValidId(JsString("1")) && IsValidId(JsString("123"))
    ensures !IsValidId(JsNumber(0.0)) && !IsValidId(JsNumber(-1.0)) && !IsValidId(JsNumber(12.5))
  {
    assert IsInteger(1.0) && IsInteger(999999.0) && !IsInteger(12.5);
    ValidIdDigits("1");
    ValidIdDigits("123");
  }

  lemma LetterIdExample()
    ensures !IsValidId(JsString("abc"))
  {
    TrimClean("abc");
    ValidIdRejectsOtherCharacters("abc", 0);
  }

  lemma NullWordIdExample()
    ensures !IsValidId(JsString("null"))
  {
    TrimClean("null");
    ValidIdRejectsOtherCharacters("null", 0);
  }

  lemma UndefinedIdExample()
    ensures !IsValidId(JsString("undefined"))
  {
    TrimClean("undefined");
    ValidIdRejectsOtherCharacters("undefined", 0);
  }

  lemma EmptyAndNegativeIdExamples()
    ensures !IsValidId(JsString("")) && !IsValidId(JsString("-5"))
  {
    ValidIdRejectsNegative("-5", "5");
  }

  lemma FractionalIdExample()
    ensures !IsValidId(JsString("12.5"))
  {
    ValidIdPointLiteral("12.5", "12", "5");
  }

  lemma NonNumericIdExamples()
    ensures !IsValidId(JsNull) && !IsValidId(JsUndefined) && !IsValidId(JsObject(map[])) && !IsValidId(JsArray([]))
  {
  }

  lemma StatusExamples()
    ensures IsValidStatus(JsBool(true)) && IsValidStatus(JsBool(false))
    ensures !IsValidStatus(JsString("true")) && !IsValidStatus(JsNumber(1.0)) && !IsValidStatus(JsNull)
  {
  }

  lemma SanitizeExamples()
    ensures SanitizeTaskData(map[]) == Success(TaskData("", "", false))
    ensures SanitizeTaskData(map["title" := JsString("Task"), "isCompleted" := JsString("true")])
         == Success(TaskData("Task", "", false))
    ensures SanitizeTaskData(map["title" := JsString("Task"), "isCompleted" := JsBool(true)])
         == Success(TaskData("Task", "", true))
  {
    TrimClean("Task");
  }

  lemma TwoPointsIdExample()
    ensures StringToNumber("1.2.3") == None && !IsValidId(JsString("1.2.3"))
  {
    var s := "1.2.3";
    assert !IsWhitespace(s[0]) && !IsWhitespace(s[4]);
    TrimClean(s);
    assert DigitRun(s) == 1;
    assert !AllDigits(s[2..]) by { assert s[2..][1] == '.'; }
  }

  lemma TrailingSignIdExample()
    ensures StringToNumber("5-") == None && !IsValidId(JsString("5-"))
  {
    var s := "5-";
    assert !IsWhitespace(s[0]) && !IsWhitespace(s[1]);
    TrimClean(s);
    assert DigitRun(s) == 1;
  }

  lemma DoubleSignIdExample()
    ensures StringToNumber("++5") == None && !IsValidId(JsString("++5"))
  {
    var s := "++5";
    assert !IsWhitespace(s[0]) && !IsWhitespace(s[2]);
    TrimClean(s);
    assert s[1..] == "+5";
    assert DigitRun("+5") == 0;
  }

  lemma LonePointIdExample()
    ensures StringToNumber(".") == None && !IsValidId(JsString("."))
  {
    var s := ".";
    assert !IsWhitespace(s[0]);
    TrimClean(s);
    assert DigitRun(s) == 0;
    assert s[1..] == [];
  }

  lemma LoneSignIdExample()
    ensures StringToNumber("+") == None && !IsValidId(JsString("+"))
  {
    var s := "+";
    assert !IsWhitespace(s[0]);
    TrimClean(s);
    assert s[1..] == [];
    assert DigitRun([]) == 0;
  }
}
