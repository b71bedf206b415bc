/**
 * The past records page: the records fetched from the dashboard service, the
 * current page and the page size, the slice of records the table shows, and
 * the rows of the PDF export. JavaScript's slice and parseInt are written
 * out with their clamping and parsing rules.
 */
module PastRecords {
  import opened Common
  import opened Digits

  /** A record as the dashboard service returns it. */
  datatype PastRecord = PastRecord(nicNumber: string, birthday: string, age: int,
                                   gender: string, fileName: string, createdAt: string)

  /** A cell of the exported table: JSON strings and numbers are kept apart. */
  datatype Cell = Text(text: string) | Number(number: int)

  const PdfHead := ["NIC Number", "Birthday", "Age", "Gender", "File", "Created At"]
  const InitialRowsPerPage := 10

  // ---------------------------------------------------------------------------
  // Array.prototype.slice

  /** A slice bound as JavaScript resolves it: negative counts from the end, then clamped. */
  function SliceBound(i: int, len: nat): (b: nat)
    ensures b <= len
    ensures 0 <= i <= len ==> b == i
    ensures i > len ==> b == len
  {
    if i < 0 then (if len + i < 0 then 0 else len + i)
    else if i < len then i else len
  }

  /**
   * s.slice(start, end): the elements from the resolved start up to the
   * resolved end, none when the end is not after the start; within bounds it
   * is the plain subsequence.
   */
  function JsSlice<T>(s: seq<T>, start: int, end: int): (r: seq<T>)
    ensures var from, to := SliceBound(start, |s|), SliceBound(end, |s|);
      && |r| == (if from < to then to - from else 0)
      && forall k :: 0 <= k < |r| ==> r[k] == s[from + k]
    ensures 0 <= start <= end <= |s| ==> r == s[start..end]
  {
    var from, to := SliceBound(start, |s|), SliceBound(end, |s|);
    if from < to then s[from..to] else []
  }

  /**
   * The visible records of a page: records.slice(page * rowsPerPage,
   * page * rowsPerPage + rowsPerPage). A page size that parsed to NaN (None)
   * makes both bounds NaN, which slice reads as 0, so nothing is shown. With
   * a non-negative page and page size, at most a page size of records is
   * shown, they are the records from the page's first position on, and a
   * page past the end shows nothing.
   */
  function Paginated<T>(records: seq<T>, page: int, rowsPerPage: Option<int>): (rows: seq<T>)
    ensures rowsPerPage.None? ==> rows == []
    ensures rowsPerPage.Some? && rowsPerPage.value >= 0 && page >= 0 ==>
      var n := rowsPerPage.value;
      && |rows| <= n
      && (page * n >= |records| ==> rows == [])
      && (page * n < |records| ==> |rows| == if page * n + n <= |records| then n else |records| - page * n)
      && (forall k :: 0 <= k < |rows| ==> rows[k] == records[page * n + k])
  {
    match rowsPerPage
    case None => JsSlice(records, 0, 0)
    case Some(n) =>
      var start := page * n;
      assert page >= 0 && n >= 0 ==> start >= 0 by {
        if page >= 0 && n >= 0 { MulNonNegative(page, n); }
      }
      Window(records, start, n);
      JsSlice(records, start, start + n)
  }

  lemma MulNonNegative(a: int, b: int)
    requires a >= 0 && b >= 0
    ensures a * b >= 0
  {
  }

  /** A window of n records from a non-negative start, as slice cuts it. */
  lemma Window<T>(records: seq<T>, start: int, n: int)
    ensures start >= 0 && n >= 0 ==>
      var rows := JsSlice(records, start, start + n);
      && |rows| <= n
      && (start >= |records| ==> rows == [])
      && (start < |records| ==> |rows| == if start + n <= |records| then n else |records| - start)
      && (forall k :: 0 <= k < |rows| ==> rows[k] == records[start + k])
  {
  }

  /**
   * Every record is shown on exactly the page its position falls in: record
   * i is row i % n of page i / n.
   */
  lemma RecordOnItsPage<T>(records: seq<T>, n: int, i: int)
    requires n > 0 && 0 <= i < |records|
    ensures var rows := Paginated(records, i / n, Some(n));
      i % n < |rows| && rows[i % n] == records[i]
  {
    var p, k := i / n, i % n;
    assert p * n + k == i;
    assert p >= 0;
    var rows := Paginated(records, p, Some(n));
    assert p * n < |records|;
  }

  // ---------------------------------------------------------------------------
  // parseInt(value, 10)

  /**
   * The characters parseInt skips before the number: ECMAScript's white space
   * (tab, vertical tab, form feed, no-break space, the byte order mark and
   * every space separator) and its line terminators.
   */
  predicate IsJsWhitespace(c: char) {
    c == '\t' || c == '\U{B}' || c == '\U{C}' || c == ' ' || c == '\U{A0}' || c == '\U{FEFF}' ||
    c == '\U{1680}' || '\U{2000}' <= c <= '\U{200A}' || c == '\U{202F}' || c == '\U{205F}' || c == '\U{3000}' ||
    c == '\n' || c == '\r' || c == '\U{2028}' || c == '\U{2029}'
  }

  /** What is left after the leading white space: a suffix whose first character is not white space. */
  function TrimStart(s: string): (t: string)
    ensures |t| <= |s| && t == s[|s| - |t|..]
    ensures forall k :: 0 <= k < |s| - |t| ==> IsJsWhitespace(s[k])
    ensures t == [] || !IsJsWhitespace(t[0])
    decreases |s|
  {
    if s != [] && IsJsWhitespace(s[0]) then TrimStart(s[1..]) else s
  }

  /** The longest prefix of decimal digits. */
  function LeadingDigits(s: string): (ds: string)
    ensures ds <= s && AllDigits(ds)
    ensures ds == s || !IsDigit(s[|ds|])
    decreases |s|
  {
    if s != [] && IsDigit(s[0]) then [s[0]] + LeadingDigits(s[1..]) else []
  }

  /**
   * parseInt(s, 10): leading white space is skipped, an optional sign read,
   * and the decimal digits that follow make the number; without any digit
   * the result is NaN (None), so a text without digits is always NaN.
   */
  function ParseInt(s: string): (r: Option<int>)
    ensures (forall k :: 0 <= k < |s| ==> !IsDigit(s[k])) ==> r == None
  {
    var t := TrimStart(s);
    assert forall k :: 0 <= k < |t| ==> t[k] == s[|s| - |t| + k];
    if forall k :: 0 <= k < |s| ==> !IsDigit(s[k]) then
      NoDigitsNaN(t);
      ParseSigned(t)
    else
      ParseSigned(t)
  }

  /** The sign and digits part of parseInt, on text that starts after the white space. */
  function ParseSigned(t: string): Option<int> {
    if t != [] && t[0] == '-' then
      match Magnitude(t[1..])
      case None => None
      case Some(m) => Some(-m)
    else if t != [] && t[0] == '+' then Magnitude(t[1..])
    else Magnitude(t)
  }

  /** The value of the leading decimal digits, NaN (None) when there are none. */
  function Magnitude(s: string): Option<int> {
    var ds := LeadingDigits(s);
    if ds == [] then None else Some(DigitsValue(ds))
  }

  /** Without a digit there is no magnitude, whatever the sign. */
  lemma NoDigitsNaN(t: string)
    requires forall k :: 0 <= k < |t| ==> !IsDigit(t[k])
    ensures ParseSigned(t) == None
  {
    if t != [] {
      assert LeadingDigits(t[1..]) == [] by {
        assert t[1..] == [] || !IsDigit(t[1..][0]);
      }
    }
  }

  /** The decimal numeral of n, as String(n) writes it. */
  function Decimal(n: nat): (s: string)
    ensures |s| > 0 && AllDigits(s)
    decreases n
  {
    if n < 10 then [('0' as int + n) as char]
    else Decimal(n / 10) + [('0' as int + n % 10) as char]
  }

  lemma {:induction false} DigitsValueDecimal(n: nat)
    ensures DigitsValue(Decimal(n)) == n
    decreases n
  {
    if n >= 10 {
      var s := Decimal(n);
      DigitsValueDecimal(n / 10);
      assert s[..|s| - 1] == Decimal(n / 10);
    }
  }

  lemma {:induction false} LeadingDigitsOf(ds: string, rest: string)
    requires AllDigits(ds)
    requires rest == [] || !IsDigit(rest[0])
    ensures LeadingDigits(ds + rest) == ds
    decreases |ds|
  {
    if ds != [] {
      LeadingDigitsOf(ds[1..], rest);
      assert (ds + rest)[1..] == ds[1..] + rest;
    }
  }

  lemma {:induction false} TrimStartSkips(ws: string, u: string)
    requires forall k :: 0 <= k < |ws| ==> IsJsWhitespace(ws[k])
    requires u == [] || !IsJsWhitespace(u[0])
    ensures TrimStart(ws + u) == u
    decreases |ws|
  {
    if ws == [] {
      assert ws + u == u;
    } else {
      var s := ws + u;
      assert s[0] == ws[0] && s[1..] == ws[1..] + u;
      TrimStartSkips(ws[1..], u);
    }
  }

  /**
   * parseInt reads back the numeral of any whole number, after any leading
   * white space and an optional sign, whatever non-digit text follows it.
   */
  lemma ParseIntNumeral(ws: string, sign: string, n: nat, rest: string)
    requires forall k :: 0 <= k < |ws| ==> IsJsWhitespace(ws[k])
    requires sign == "" || sign == "+" || sign == "-"
    requires rest == [] || !IsDigit(rest[0])
    ensures ParseInt(ws + sign + Decimal(n) + rest) == Some(if sign == "-" then -(n as int) else n as int)
  {
    var digits := Decimal(n) + rest;
    Regroup(ws, sign, Decimal(n), rest);
    MagnitudeNumeral(n, rest);
    ParseSignedNumeral(sign, digits, n);
    NumeralStart(sign, digits);
    TrimStartSkips(ws, sign + digits);
  }

  lemma Regroup(ws: string, sign: string, d: string, rest: string)
    ensures ws + sign + d + rest == ws + (sign + (d + rest))
  {
    assert ws + sign + d == ws + (sign + d);
  }

  lemma ParseSignedNumeral(sign: string, digits: string, m: int)
    requires sign == "" || sign == "+" || sign == "-"
    requires digits != [] && IsDigit(digits[0]) && Magnitude(digits) == Some(m)
    ensures ParseSigned(sign + digits) == Some(if sign == "-" then -m else m)
  {
    if sign == "" {
      assert sign + digits == digits;
      UnsignedNumeral(digits, m);
    } else {
      var c := sign[0];
      assert sign == [c];
      SignedNumeral(c, digits, m);
    }
  }

  /** A sign or a digit is not white space. */
  lemma NumeralStart(sign: string, digits: string)
    requires sign == "" || sign == "+" || sign == "-"
    requires digits != [] && IsDigit(digits[0])
    ensures sign + digits != [] && !IsJsWhitespace((sign + digits)[0])
  {
    assert (sign + digits)[0] == if sign == "" then digits[0] else sign[0];
  }

  /** Text starting with a digit has no sign to read. */
  lemma UnsignedNumeral(digits: string, m: int)
    requires digits != [] && IsDigit(digits[0]) && Magnitude(digits) == Some(m)
    ensures ParseSigned(digits) == Some(m)
  {
  }

  /** A sign applies to the magnitude that follows it. */
  lemma SignedNumeral(c: char, digits: string, m: int)
    requires (c == '+' || c == '-') && Magnitude(digits) == Some(m)
    ensures ParseSigned([c] + digits) == Some(if c == '-' then -m else m)
  {
    assert ([c] + digits)[1..] == digits;
  }

  lemma MagnitudeNumeral(n: nat, rest: string)
    requires rest == [] || !IsDigit(rest[0])
    ensures Decimal(n) + rest != [] && IsDigit((Decimal(n) + rest)[0])
    ensures Magnitude(Decimal(n) + rest) == Some(n)
  {
    LeadingDigitsOf(Decimal(n), rest);
    DigitsValueDecimal(n);
  }

  // ---------------------------------------------------------------------------
  // The page

  /** The exported row of a record: its six fields in the order of the head. */
  function PdfRow(r: PastRecord): seq<Cell> {
    [Text(r.nicNumber), Text(r.birthday), Number(r.age), Text(r.gender), Text(r.fileName), Text(r.createdAt)]
  }

  class PastRecordsPage {
    var records: seq<PastRecord>
    var page: int
    var rowsPerPage: Option<int>

    /** The page opens on page 0, ten rows a page, with no records yet. */
    constructor ()
      ensures records == [] && page == 0 && rowsPerPage == Some(InitialRowsPerPage)
    {
      records := [];
      page := 0;
      rowsPerPage := Some(InitialRowsPerPage);
    }

    /** The records the table shows. */
    function Visible(): seq<PastRecord>
      reads this
    {
      Paginated(records, page, rowsPerPage)
    }

    /**
     * fetchRecords, with the awaited reply passed in: a reply replaces the
     * records, a failed request leaves them as they were.
     */
    method FetchRecords(reply: Option<seq<PastRecord>>)
      modifies this
      ensures reply.Some? ==> records == reply.value
      ensures reply.None? ==> records == old(records)
      ensures page == old(page) && rowsPerPage == old(rowsPerPage)
    {
      if reply.Some? {
        records := reply.value;
      }
    }

    /** handleChangePage: only the page changes. */
    method HandleChangePage(newPage: int)
      modifies this
      ensures page == newPage
      ensures records == old(records) && rowsPerPage == old(rowsPerPage)
    {
      page := newPage;
    }

    /**
     * handleChangeRowsPerPage: the page size becomes the parsed value and the
     * table goes back to the first page, which shows the first records.
     */
    method HandleChangeRowsPerPage(value: string)
      modifies this
      ensures rowsPerPage == ParseInt(value) && page == 0
      ensures records == old(records)
      ensures rowsPerPage.Some? && rowsPerPage.value >= 0 ==>
        Visible() == records[..if rowsPerPage.value <= |records| then rowsPerPage.value else |records|]
    {
      rowsPerPage := ParseInt(value);
      page := 0;
    }

    /**
     * exportToPDF's table: the fixed head, and one row per record, in record
     * order, each with as many cells as the head.
     */
    method ExportToPdf() returns (head: seq<string>, body: seq<seq<Cell>>)
      ensures head == PdfHead
      ensures |body| == |records|
      ensures forall i :: 0 <= i < |body| ==> body[i] == PdfRow(records[i]) && |body[i]| == |head|
    {
      head := PdfHead;
      body := [];
      for i := 0 to |records|
        invariant |body| == i
        invariant forall k :: 0 <= k < i ==> body[k] == PdfRow(records[k])
      {
        body := body + [PdfRow(records[i])];
      }
    }
  }
}
