/**
 One output line per resolved address: the address, a comma, the latitude
 in DMS followed by `N`, a comma, the longitude in DMS followed by `E`, and a
 newline. The address is written as it was read, unquoted.
 */
module OutputRecord {
  import opened Numerals
  import opened Coordinates

  function Line(address: string, lat: real, lng: real): (line: string)
    ensures |line| == |address| + |Convert(lat)| + |Convert(lng)| + 5
    ensures line[..|address|] == address && line[|address|] == ','
    ensures line[|line| - 2..] == "E\n"
  {
    address + "," + Convert(lat) + "N," + Convert(lng) + "E\n"
  }

  /** The three fields a line carries, as text. */
  datatype Fields = Fields(address: string, lat: string, lng: string)

  /** Index of the last comma of `s`, or -1 when it has none. */
  function LastComma(s: string): (i: int)
    ensures -1 <= i < |s|
    ensures i >= 0 ==> s[i] == ','
    ensures forall j | i < j < |s| :: s[j] != ','
  {
    if |s| == 0 then -1
    else if s[|s| - 1] == ',' then |s| - 1
    else LastComma(s[..|s| - 1])
  }

  /**
   Reads a line back, splitting at the last two commas: the DMS texts hold
   no comma, so whatever precedes them is the address, commas included.
   */
  function ParseLine(line: string): Option<Fields> {
    if |line| == 0 || line[|line| - 1] != '\n' then None
    else
      var body := line[..|line| - 1];
      var i := LastComma(body);
      if i < 0 || i == |body| - 1 || body[|body| - 1] != 'E' then None
      else
        var rest := body[..i];
        var j := LastComma(rest);
        if j < 0 || j == |rest| - 1 || rest[|rest| - 1] != 'N' then None
        else Some(Fields(rest[..j], rest[j + 1..|rest| - 1], body[i + 1..|body| - 1]))
  }

  lemma {:induction false} LastCommaAfter(x: string, y: string)
    requires forall k | 0 <= k < |y| :: y[k] != ','
    ensures LastComma(x + "," + y) == |x|
  {
    var s := x + "," + y;
    if |y| == 0 {
    } else {
      assert s[..|s| - 1] == x + "," + y[..|y| - 1];
      LastCommaAfter(x, y[..|y| - 1]);
    }
  }

  /** Cutting `x + "," + y` at its last comma gives back `x` and `y` when `y` has no comma. */
  lemma CutAtLastComma(x: string, y: string)
    requires forall k | 0 <= k < |y| :: y[k] != ','
    ensures var s := x + "," + y;
      LastComma(s) == |x| && s[..|x|] == x && s[|x| + 1..] == y
  {
    LastCommaAfter(x, y);
    var s := x + "," + y;
    assert s[..|x|] == x;
    assert s[|x| + 1..] == y;
  }

  /** Splitting a line built from comma-free DMS texts recovers its parts. */
  lemma ParseLineParts(address: string, la: string, ln: string)
    requires NoSeparator(la) && NoSeparator(ln)
    ensures ParseLine(address + "," + la + "N," + ln + "E\n") == Some(Fields(address, la, ln))
  {
    var line := address + "," + la + "N," + ln + "E\n";
    var rest := address + "," + (la + "N");
    var body := rest + "," + (ln + "E");
    assert line == body + "\n";
    assert line[..|line| - 1] == body;
    CutAtLastComma(rest, ln + "E");
    assert body[|body| - 1] == 'E';
    assert body[|rest| + 1..|body| - 1] == ln;
    CutAtLastComma(address, la + "N");
    assert rest[|rest| - 1] == 'N';
    assert rest[|address| + 1..|rest| - 1] == la;
  }

  /** Every line `putGeocode` writes reads back to its address and the two DMS texts. */
  lemma ParseLineOfLine(address: string, lat: real, lng: real)
    ensures ParseLine(Line(address, lat, lng)) == Some(Fields(address, Convert(lat), Convert(lng)))
  {
    ParseLineParts(address, Convert(lat), Convert(lng));
  }
}
