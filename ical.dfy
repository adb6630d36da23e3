/** The iCalendar payload of the export handler
    (controllers/homeworkController.mjs exportIcal, copied in both routers):
    a VCALENDAR object (section 3.4 of RFC 5545) holding one VEVENT (section
    3.6.1), thirteen lines in a fixed order joined by CRLF (section 3.1), with
    UTC times in the compact DATE-TIME form of section 3.3.5. */
module ICal {
  import opened Records

  // ---------------------------------------------------------------------
  // Decimal text of an id (the template literal `${event.id}`).

  function DigitChar(d: int): (c: char)
    requires 0 <= d < 10
    ensures '0' <= c <= '9'
  {
    (48 + d) as char
  }

  function Decimal(n: nat): (s: string)
    ensures |s| >= 1
    ensures forall i :: 0 <= i < |s| ==> '0' <= s[i] <= '9'
  {
    if n < 10 then [DigitChar(n)] else Decimal(n / 10) + [DigitChar(n % 10)]
  }

  /** The reading of a string of digits, most significant first. */
  function DecimalValue(s: string): nat
    requires forall i :: 0 <= i < |s| ==> '0' <= s[i] <= '9'
  {
    if s == [] then 0 else 10 * DecimalValue(s[..|s| - 1]) + (s[|s| - 1] as int - 48)
  }

  /** The UID line names the row it was exported from: the id reads back. */
  lemma {:induction false} DecimalReadsBack(n: nat)
    ensures DecimalValue(Decimal(n)) == n
  {
    if n >= 10 {
      var s := Decimal(n);
      assert s[..|s| - 1] == Decimal(n / 10);
      DecimalReadsBack(n / 10);
    }
  }

  // ---------------------------------------------------------------------
  // The DESCRIPTION text: `.replace(/\n/g, "\\n")`.

  /** Every line feed becomes the two characters backslash and 'n'; nothing
      else is escaped (section 3.3.11 of RFC 5545 also escapes backslash,
      semicolon and comma, and a carriage return is left as it is). */
  function EscapeNewlines(s: string): (r: string)
    ensures '\n' !in r
    ensures (forall i :: 0 <= i < |s| ==> s[i] != '\n') ==> r == s
    ensures |r| >= |s|
  {
    if s == [] then []
    else (if s[0] == '\n' then ['\\', 'n'] else [s[0]]) + EscapeNewlines(s[1..])
  }

  /** A line feed alone becomes backslash-n; any other character alone is
      kept. With EscapeAppend this fixes the result of every string. */
  lemma EscapeOneChar(c: char)
    ensures c == '\n' ==> EscapeNewlines([c]) == "\\n"
    ensures c != '\n' ==> EscapeNewlines([c]) == [c]
  {
    assert [c][1..] == [];
  }

  /** The escape works character by character: escaping a concatenation
      concatenates the escapes. */
  lemma {:induction false} EscapeAppend(a: string, b: string)
    ensures EscapeNewlines(a + b) == EscapeNewlines(a) + EscapeNewlines(b)
  {
    if a != [] {
      var head := if a[0] == '\n' then "\\n" else [a[0]];
      assert (a + b)[0] == a[0];
      assert (a + b)[1..] == a[1..] + b;
      assert EscapeNewlines(a + b) == head + EscapeNewlines(a[1..] + b);
      EscapeAppend(a[1..], b);
      assert EscapeNewlines(a) == head + EscapeNewlines(a[1..]);
    } else {
      assert a + b == b;
    }
  }

  /** The escaping loses information: a typed backslash-n and a real line
      break come out the same. */
  lemma EscapeNotInjective()
    ensures EscapeNewlines("\\n") == EscapeNewlines("\n")
    ensures "\\n" != "\n"
  {
    assert EscapeNewlines("\\n") == ['\\'] + EscapeNewlines("n");
  }

  // ---------------------------------------------------------------------
  // Lines and their CRLF joining.

  /** `lines.join("\r\n")`. */
  function JoinCrlf(lines: seq<string>): (r: string)
  {
    if lines == [] then ""
    else if |lines| == 1 then lines[0]
    else lines[0] + "\r\n" + JoinCrlf(lines[1..])
  }

  /** Position of the first CRLF pair in `s`. */
  function FindCrlf(s: string): (r: Option<nat>)
    ensures r.Some? ==> r.value + 1 < |s| && s[r.value] == '\r' && s[r.value + 1] == '\n'
    ensures r.Some? ==> forall j :: 0 <= j < r.value ==> s[j] != '\r' || s[j + 1] != '\n'
    ensures r.None? ==> forall j :: 0 <= j < |s| - 1 ==> s[j] != '\r' || s[j + 1] != '\n'
  {
    if |s| < 2 then None
    else if s[0] == '\r' && s[1] == '\n' then Some(0)
    else match FindCrlf(s[1..])
      case None => None
      case Some(k) => Some(k + 1)
  }

  /** How a reader cuts a payload back into content lines (section 3.1 of RFC 5545). */
  function SplitCrlf(s: string): (r: seq<string>)
    ensures |r| >= 1
    decreases |s|
  {
    match FindCrlf(s)
    case None => [s]
    case Some(i) => [s[..i]] + SplitCrlf(s[i + 2..])
  }

  predicate NoCarriageReturn(lines: seq<string>) {
    forall k, i :: 0 <= k < |lines| && 0 <= i < |lines[k]| ==> lines[k][i] != '\r'
  }

  /** After a line without a carriage return, the first CRLF is the separator. */
  lemma FirstCrlfAfterLine(l: string, rest: string)
    requires '\r' !in l
    ensures FindCrlf(l + "\r\n" + rest) == Some(|l|)
  {
    var s := l + "\r\n" + rest;
    assert s[|l|] == '\r' && s[|l| + 1] == '\n';
    assert forall j :: 0 <= j < |l| ==> s[j] == l[j];
  }

  /** Joining lines that hold no carriage return and cutting the result at
      each CRLF gives the same lines back. */
  lemma {:induction false} SplitJoin(lines: seq<string>)
    requires |lines| >= 1 && NoCarriageReturn(lines)
    ensures SplitCrlf(JoinCrlf(lines)) == lines
  {
    var l := lines[0];
    assert '\r' !in l by {
      assert forall i :: 0 <= i < |l| ==> lines[0][i] != '\r';
    }
    if |lines| == 1 {
      assert FindCrlf(l).None?;
    } else {
      var rest := JoinCrlf(lines[1..]);
      var s := l + "\r\n" + rest;
      FirstCrlfAfterLine(l, rest);
      assert s[..|l|] == l && s[|l| + 2..] == rest;
      assert NoCarriageReturn(lines[1..]) by {
        forall k, i | 0 <= k < |lines[1..]| && 0 <= i < |lines[1..][k]|
          ensures lines[1..][k][i] != '\r'
        {
          assert lines[1..][k] == lines[k + 1];
        }
      }
      SplitJoin(lines[1..]);
      assert SplitCrlf(s) == [l] + SplitCrlf(rest);
      assert lines == [l] + lines[1..];
    }
  }

  // ---------------------------------------------------------------------
  // The payload.

  /** `"DTSTART:" + start` where start is the compact UTC form of the due
      date, or an empty line without one. `compact` is
      `toISOString()` with '-' and ':' removed and the fraction cut off. */
  function IcsLines(h: Homework, now: Time, compact: Time -> string): (r: seq<string>)
    ensures |r| == 13
  {
    var start := if h.due.Some? then compact(h.due.value) + "Z" else "";
    var end := start;
    [ "BEGIN:VCALENDAR",
      "VERSION:2.0",
      "PRODID:-//MyAgenda//EN",
      "BEGIN:VEVENT",
      "UID:" + Decimal(h.id) + "@myagenda.local",
      "DTSTAMP:" + compact(now) + "Z",
      if h.due.Some? then "DTSTART:" + start else "",
      if h.due.Some? then "DTEND:" + end else "",
      "SUMMARY:" + h.title,
      "DESCRIPTION:" + EscapeNewlines(if h.description.Some? then h.description.value else ""),
      "URL:" + (if h.attachment.Some? then h.attachment.value else ""),
      "END:VEVENT",
      "END:VCALENDAR" ]
  }

  function Ics(h: Homework, now: Time, compact: Time -> string): string {
    JoinCrlf(IcsLines(h, now, compact))
  }

  /** The shape of the payload: the object and event brackets, the event
      ends when it starts, a missing due date leaves two empty lines, the
      UID line carries the row's id (which reads back, DecimalReadsBack), the
      stamp is the export instant, the summary the title, the description
      line the escaped text with no line feed, and the URL the attachment or
      nothing. */
  lemma IcsShape(h: Homework, now: Time, compact: Time -> string)
    ensures var ls := IcsLines(h, now, compact);
      && ls[0] == "BEGIN:VCALENDAR" && ls[3] == "BEGIN:VEVENT"
      && ls[11] == "END:VEVENT" && ls[12] == "END:VCALENDAR"
      && (h.due.Some? ==> (ls[6] == "DTSTART:" + compact(h.due.value) + "Z"
                          && ls[7] == "DTEND:" + compact(h.due.value) + "Z"))
      && (h.due.None? ==> ls[6] == "" && ls[7] == "")
      && ls[4] == "UID:" + Decimal(h.id) + "@myagenda.local"
      && ls[5] == "DTSTAMP:" + compact(now) + "Z"
      && ls[8] == "SUMMARY:" + h.title
      && ls[9] == "DESCRIPTION:" + EscapeNewlines(if h.description.Some? then h.description.value else "")
      && '\n' !in ls[9]
      && ls[10] == "URL:" + (if h.attachment.Some? then h.attachment.value else "")
  {
  }

  /** When no field carries a carriage return, a reader that cuts the payload
      at each CRLF finds exactly the thirteen lines, in order. */
  lemma IcsReadsBack(h: Homework, now: Time, compact: Time -> string)
    requires NoCarriageReturn(IcsLines(h, now, compact))
    ensures SplitCrlf(Ics(h, now, compact)) == IcsLines(h, now, compact)
    ensures |SplitCrlf(Ics(h, now, compact))| == 13
  {
    SplitJoin(IcsLines(h, now, compact));
  }
}
