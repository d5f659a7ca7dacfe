/** The input gates of the task routes: title, id and status checks, and the sanitiser. */
module Validators {
  import opened Wrappers
  import opened JsValues
  import opened NumberConversion

  /** `isValidTitle`: a string that is not blank once trimmed. */
  predicate IsValidTitle(v: JsValue)
    ensures IsValidTitle(v) ==> Truthy(v)
  {
    v.JsString? && Trim(v.s) != ""
  }

  /** `isValidId`: `Number(v)` is not NaN, is positive and is an integer, and `v` is not the empty string. */
  predicate IsValidId(v: JsValue)
    ensures IsValidId(v) ==> ToNumber(v).Some? && ToNumber(v).value >= 1.0
  {
    match ToNumber(v)
    case None => false
    case Some(x) => x > 0.0 && v != JsString("") && IsInteger(x)
  }

  /** `isValidStatus`: the value is a boolean, nothing coerced. */
  predicate IsValidStatus(v: JsValue)
    ensures IsValidStatus(v) <==> v == JsBool(true) || v == JsBool(false)
  {
    v.JsBool?
  }

  /** The canonical task payload `sanitizeTaskData` builds. */
  datatype TaskData = TaskData(title: string, description: string, isCompleted: bool)

  /** The message of the TypeError raised by calling `trim` on a value that has none. */
  function TrimTypeError(key: string): (message: string)
  {
    "data." + key + ".trim is not a function"
  }

  /**
   * `data[key] ? data[key].trim() : ''`. A falsy value gives `''`, a string is trimmed, and any
   * other truthy value has no `trim` method, so the call throws.
   */
  function TrimmedOrEmpty(data: map<string, JsValue>, key: string): (r: Result<string, string>)
    ensures !Truthy(Field(data, key)) ==> r == Success("")
    ensures Field(data, key).JsString? ==> r == Success(Trim(Field(data, key).s))
    ensures r.Failure? <==> Truthy(Field(data, key)) && !Field(data, key).JsString?
    ensures r.Failure? ==> r.error == TrimTypeError(key)
  {
    var v := Field(data, key);
    if !Truthy(v) then Success("")
    else if v.JsString? then Success(Trim(v.s))
    else Failure(TrimTypeError(key))
  }

  /**
   * `sanitizeTaskData`: title and description trimmed or defaulted to `''`, and `isCompleted`
   * true only for the boolean `true`. The title is evaluated first, so its TypeError wins.
   */
  function SanitizeTaskData(data: map<string, JsValue>): (r: Result<TaskData, string>)
    ensures r.Success? <==> TrimmedOrEmpty(data, "title").Success? && TrimmedOrEmpty(data, "description").Success?
    ensures r.Success? ==> (r.value.title == TrimmedOrEmpty(data, "title").value
                            && r.value.description == TrimmedOrEmpty(data, "description").value)
    ensures r.Success? ==> (r.value.isCompleted <==> Field(data, "isCompleted") == JsBool(true))
    ensures r.Failure? ==> r.error == (if TrimmedOrEmpty(data, "title").Failure? then TrimTypeError("title")
                                       else TrimTypeError("description"))
  {
    match TrimmedOrEmpty(data, "title")
    case Failure(e) => Failure(e)
    case Success(title) =>
      match TrimmedOrEmpty(data, "description")
      case Failure(e) => Failure(e)
      case Success(description) =>
        Success(TaskData(title, description, Field(data, "isCompleted") == JsBool(true)))
  }

  /** The sanitised payload written back as a request body. */
  function AsBody(t: TaskData): (body: map<string, JsValue>)
  {
    map["title" := JsString(t.title), "description" := JsString(t.description), "isCompleted" := JsBool(t.isCompleted)]
  }

  /** A title is valid exactly when it is a string with at least one non-whitespace character. */
  lemma ValidTitleIff(v: JsValue)
    ensures IsValidTitle(v) <==> v.JsString? && !AllWhitespace(v.s)
  {
    if v.JsString? {
      TrimEmptyIff(v.s);
    }
  }

  /** For a valid title the sanitised title is non-empty and has no whitespace at either end. */
  lemma SanitizedTitleIsClean(data: map<string, JsValue>)
    requires IsValidTitle(Field(data, "title"))
    requires SanitizeTaskData(data).Success?
    ensures var t := SanitizeTaskData(data).value.title;
      t != [] && !IsWhitespace(t[0]) && !IsWhitespace(t[|t| - 1])
  {
    var s := Field(data, "title").s;
    assert SanitizeTaskData(data).value.title == Trim(s);
    TrimmedEnds(s);
  }

  /** Sanitising its own output gives the same payload back. */
  lemma SanitizeIdempotent(data: map<string, JsValue>)
    requires SanitizeTaskData(data).Success?
    ensures SanitizeTaskData(AsBody(SanitizeTaskData(data).value)) == SanitizeTaskData(data)
  {
    var t := SanitizeTaskData(data).value;
    var body := AsBody(t);
    assert Field(body, "title") == JsString(t.title);
    assert Field(body, "description") == JsString(t.description);
    assert Field(body, "isCompleted") == JsBool(t.isCompleted);
    var title := Field(data, "title");
    if Truthy(title) {
      TrimIdempotent(title.s);
    }
    var description := Field(data, "description");
    if Truthy(description) {
      TrimIdempotent(description.s);
    }
  }

  /** A number is a valid id exactly when it is a positive integer. */
  lemma ValidIdNumber(x: real)
    ensures IsValidId(JsNumber(x)) <==> x > 0.0 && IsInteger(x)
  {
  }

  /** A string of digits is a valid id exactly when it spells a positive number. */
  lemma ValidIdDigits(d: string)
    requires |d| > 0 && AllDigits(d)
    ensures IsValidId(JsString(d)) <==> DigitsValue(d) > 0
  {
    DigitsToNumber(d);
  }

  /** `w.f` is a valid id exactly when `w` is positive and the fraction `f` is all zeros. */
  lemma ValidIdPointLiteral(s: string, w: string, f: string)
    requires |w| > 0 && AllDigits(w) && AllDigits(f) && s == w + "." + f
    ensures IsValidId(JsString(s)) <==> DigitsValue(w) > 0 && DigitsValue(f) == 0
  {
    PointLiteralToNumber(s, w, f);
    PointValueFacts(w, f);
  }

  /** Every positive integer is a valid id, as a number and as its decimal string; zero is not. */
  lemma ValidIdPositiveIntegers(n: nat)
    ensures IsValidId(JsNumber(n as real)) <==> n > 0
    ensures IsValidId(JsString(DecimalString(n))) <==> n > 0
  {
    DecimalRoundTrip(n);
  }

  /** A string whose trimmed form holds anything but digits, signs and points is rejected. */
  lemma ValidIdRejectsOtherCharacters(s: string, i: nat)
    requires i < |Trim(s)| && !IsDigit(Trim(s)[i]) && Trim(s)[i] !in "+-."
    ensures !IsValidId(JsString(s))
  {
    if ParseDecimal(Trim(s)).Some? {
      ParsedCharacters(Trim(s), i);
    }
  }

  /** A value whose number conversion is negative or zero is rejected, whatever its spelling. */
  lemma ValidIdRejectsNonPositive(v: JsValue)
    requires ToNumber(v).Some? && ToNumber(v).value <= 0.0
    ensures !IsValidId(v)
  {
  }

  /** A minus sign in front of a decimal literal always makes the id invalid. */
  lemma ValidIdRejectsNegative(s: string, d: string)
    requires |d| > 0 && !IsWhitespace(d[|d| - 1]) && s == "-" + d
    ensures !IsValidId(JsString(s))
  {
    assert s[0] == '-' && s[|s| - 1] == d[|d| - 1];
    assert !IsWhitespace(s[0]);
    TrimClean(s);
    assert s[1..] == d;
    var x := StringToNumber(s);
    assert x == ParseDecimal(s);
    if ParseUnsignedDecimal(d).Some? {
      UnsignedIsNonNegative(d);
      assert x == Some(-ParseUnsignedDecimal(d).value);
    } else {
      assert x == None;
    }
  }

  /** A leading plus sign changes nothing: `'+5'` is valid exactly when `'5'` is. */
  lemma ValidIdPlusSign(d: string)
    requires |d| > 0 && !IsWhitespace(d[0]) && !IsWhitespace(d[|d| - 1]) && d[0] != '-' && d[0] != '+'
    ensures IsValidId(JsString("+" + d)) <==> IsValidId(JsString(d))
  {
    SignedToNumber(d);
  }

  /** Whitespace around an id is ignored: `' 7 '` is valid exactly when `'7'` is. */
  lemma ValidIdIgnoresPadding(s: string, pre: string, post: string)
    requires AllWhitespace(pre) && AllWhitespace(post)
    ensures IsValidId(JsString(pre + s + post)) <==> IsValidId(JsString(s))
  {
    NumberIgnoresPadding(s, pre, post);
    if s == "" {
      assert StringToNumber(s) == Some(0.0);
    }
  }

  /** A literal `.f` is below 1, so it is zero or a fraction and never a valid id. */
  lemma ValidIdLeadingPoint(f: string)
    requires |f| > 0 && AllDigits(f)
    ensures !IsValidId(JsString("." + f))
  {
    LeadingPointToNumber(f);
    PointValueFacts("", f);
    assert DigitsValue("") == 0;
  }

  lemma UnsignedIsNonNegative(d: string)
    requires ParseUnsignedDecimal(d).Some?
    ensures ParseUnsignedDecimal(d).value >= 0.0
  {
    var k := DigitRun(d);
    if k < |d| {
      PointValueFacts(d[..k], d[k + 1..]);
    }
  }
}
