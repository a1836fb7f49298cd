/** Concrete inputs worked through the model. */
module Scenarios {
  import opened Wrappers
  import opened Text
  import opened Calendar
  import opened Extractor

  /** 2000 and 2024 are leap years; 1900 and 2023 are not. */
  lemma LeapYears()
    ensures IsLeapYear(2000) && IsLeapYear(2024)
    ensures !IsLeapYear(1900) && !IsLeapYear(2023)
    ensures DaysInMonth(2024, 2) == 29 && DaysInMonth(1900, 2) == 28
  {
  }

  /**
    1900 has no February 29 here: serial 60 is March 1 and serial 61 March 2. Serial 1826
    is the 366th day of the leap year 1904, which the year loop keeps in 1904.
   */
  lemma Serials()
    ensures CalendarOf(1) == Date(1900, 1, 1)
    ensures CalendarOf(59) == Date(1900, 2, 28)
    ensures CalendarOf(60) == Date(1900, 3, 1)
    ensures CalendarOf(61) == Date(1900, 3, 2)
    ensures CalendarOf(366) == Date(1901, 1, 1)
    ensures CalendarOf(1826) == Date(1904, 12, 31)
  {
  }

  lemma FormattedDay()
    ensures FormatDate(Date(1900, 3, 2)) == "1900-03-02"
  {
  }

  lemma Parsed()
    ensures StoI("61") == Some(61)
    ensures StoI("Unknown") == None
  {
    var t := "61";
    assert SkipSpaces(t) == t && SignStripped(t) == t;
    assert t[1..] == "1" && DigitRun(t) == t;
    assert t[..1] == "6" && DigitsValue(t) == 61;
    assert SkipSpaces("Unknown") == "Unknown";
  }

  /** The date column of serial 61; a text without digits makes `stoi` throw. */
  lemma DateTexts()
    ensures DateText("61") == Some("1900-03-02")
    ensures DateText("Unknown") == None
  {
    Parsed();
    Serials();
    FormattedDay();
  }

  lemma Noon()
    ensures ConvertTime(43200) == "12:00:00"
  {
  }

  lemma Midnight()
    ensures ConvertTime(0) == "00:00:00"
  {
  }

  lemma LastSecond()
    ensures ConvertTime(86399) == "23:59:59"
  {
  }

  /** The cut takes three characters whatever they are: "1234km" loses its 4. */
  lemma Distances()
    ensures DropLast3("1234 km") == Some("1234")
    ensures DropLast3("1234km") == Some("123")
    ensures DropLast3("km") == None
  {
    assert "1234 km"[..4] == "1234";
    assert "1234km"[..3] == "123";
  }

  /** The cut keeps characters, not digits: a longitude with a sign keeps one decimal. */
  lemma Coordinates()
    ensures Prefix("37.12345", 5) + ", " + Prefix("-127.654321", 6) == "37.12, -127.6"
    ensures Prefix("2.35", 6) == "2.35"
  {
    assert "37.12345"[..5] == "37.12";
    assert "-127.654321"[..6] == "-127.6";
  }
}
