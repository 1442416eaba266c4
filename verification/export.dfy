/** The text of the CSV download (`downloadCSV`): which people are exported, the fixed
    header, one row per person, and the quoting of every field. A reader for that text
    is defined beside the writer, and reading back what was written gives the rows. */
module Export {
  import opened Optional
  import opened Records

  const Header: seq<string> := ["Name", "Title", "Department", "Location", "Email", "License", "AI Usage"]

  /** `Math.round`: the nearest integer, halves rounded up. */
  function Round(v: real): (r: int)
    ensures v - 0.5 < r as real <= v + 0.5
  {
    (v + 0.5).Floor
  }

  function DigitChar(d: nat): char
    requires d < 10
  {
    (d + '0' as int) as char
  }

  /** The decimal digits of a natural number, without leading zeros. */
  function NatText(n: nat): (r: string)
    ensures r != [] && forall k :: 0 <= k < |r| ==> '0' <= r[k] <= '9'
    ensures |r| > 1 ==> r[0] != '0'
  {
    if n < 10 then [DigitChar(n)] else NatText(n / 10) + [DigitChar(n % 10)]
  }

  /** The value of a string of decimal digits. */
  function DigitsValue(s: string): nat
    requires forall k :: 0 <= k < |s| ==> '0' <= s[k] <= '9'
  {
    if s == [] then 0 else DigitsValue(s[..|s| - 1]) * 10 + (s[|s| - 1] as int - '0' as int)
  }

  /** Reading the digits back gives the number: the text is the number's decimal form. */
  lemma {:induction false} NatTextValue(n: nat)
    ensures DigitsValue(NatText(n)) == n
  {
    if n >= 10 {
      NatTextValue(n / 10);
      var r := NatText(n);
      assert r[..|r| - 1] == NatText(n / 10);
    }
  }

  /** `String(n)` for an integer. */
  function IntText(n: int): (r: string)
    ensures n >= 0 ==> r == NatText(n)
    ensures n < 0 ==> r == "-" + NatText(-n)
  {
    if n >= 0 then NatText(n) else "-" + NatText(-n)
  }

  /** The "AI Usage" column: empty when the engagement is undefined, otherwise the
      rating's label and the estimated daily uses, `Math.round(engagement * 3)`. */
  function AiUsage(engagement: Option<real>, rating: real -> Rating): (r: string)
    ensures engagement.None? <==> r == []
    ensures engagement.Some? ==>
      var daily := Round(engagement.value * 3.0);
      && engagement.value * 3.0 - 0.5 < daily as real <= engagement.value * 3.0 + 0.5
      && r == rating(engagement.value).caption + " (~" + IntText(daily) + "/day)"
  {
    if engagement.None? then []
    else rating(engagement.value).caption + " (~" + IntText(Round(engagement.value * 3.0)) + "/day)"
  }

  /** One person's row, in the header's column order; missing text becomes empty. */
  function Row(u: User, rating: real -> Rating): (r: seq<string>)
    ensures |r| == |Header|
    ensures r[5] == "Yes" <==> u.hasLicense
    ensures r[5] == "Yes" || r[5] == "No"
    ensures r[0] == (if u.name.Some? then u.name.value else [])
    ensures r[1] == (if u.title.Some? then u.title.value else [])
    ensures r[2] == (if u.department.Some? then u.department.value else [])
    ensures r[3] == (if u.location.Some? then u.location.value else [])
    ensures r[4] == (if u.email.Some? then u.email.value else [])
    ensures r[6] == AiUsage(u.aiEngagement, rating)
    ensures r[6] == [] <==> u.aiEngagement.None?
  {
    [ OrElse(u.name, ""), OrElse(u.title, ""), OrElse(u.department, ""), OrElse(u.location, ""),
      OrElse(u.email, ""), if u.hasLicense then "Yes" else "No", AiUsage(u.aiEngagement, rating) ]
  }

  /** The rows of a list of people, in order. */
  function Rows(users: seq<User>, rating: real -> Rating): (r: seq<seq<string>>)
    ensures |r| == |users|
    ensures forall k :: 0 <= k < |users| ==> r[k] == Row(users[k], rating)
  {
    seq(|users|, k requires 0 <= k < |users| => Row(users[k], rating))
  }

  /** `orgData.filter(u => highlightedNodes.has(u.email))`. */
  function Filter(org: seq<User>, nodes: set<Email>): (r: seq<User>)
    ensures |r| <= |org|
    ensures forall u :: u in r <==> u in org && u.email in nodes
  {
    if org == [] then []
    else if org[0].email in nodes then [org[0]] + Filter(org[1..], nodes)
    else Filter(org[1..], nodes)
  }

  /** The filter keeps the order of the records: filtering a concatenation concatenates
      the filtered parts. */
  lemma {:induction false} FilterKeepsOrder(a: seq<User>, b: seq<User>, nodes: set<Email>)
    ensures Filter(a + b, nodes) == Filter(a, nodes) + Filter(b, nodes)
    decreases |a|
  {
    if a != [] {
      assert (a + b)[1..] == a[1..] + b;
      FilterKeepsOrder(a[1..], b, nodes);
    } else {
      assert a + b == b;
    }
  }

  /** The people exported: the highlighted ones when a non-empty highlight is active,
      otherwise everybody. */
  function Selected(org: seq<User>, nodes: Option<set<Email>>): (r: seq<User>)
    ensures nodes.None? || nodes.value == {} ==> r == org
    ensures nodes.Some? && nodes.value != {} ==> forall u :: u in r <==> u in org && u.email in nodes.value
    ensures nodes.Some? && nodes.value != {} ==> r == Filter(org, nodes.value)
  {
    if nodes.Some? && |nodes.value| > 0 then Filter(org, nodes.value) else org
  }

  /** `"` + the value with each `"` doubled + `"`. */
  function Double(v: string): (r: string)
    ensures |r| >= |v|
  {
    if v == [] then [] else (if v[0] == '"' then "\"\"" else [v[0]]) + Double(v[1..])
  }

  /** Text without quotes is written as it is. */
  lemma {:induction false} DoubleKeepsPlainText(v: string)
    requires forall k :: 0 <= k < |v| ==> v[k] != '"'
    ensures Double(v) == v
    decreases |v|
  {
    if v != [] {
      DoubleKeepsPlainText(v[1..]);
      assert [v[0]] + v[1..] == v;
    }
  }

  function Quote(v: string): (r: string)
    ensures |r| >= |v| + 2 && r[0] == '"' && r[|r| - 1] == '"'
  {
    "\"" + Double(v) + "\""
  }

  /** The quoted fields joined by commas. */
  function Line(fields: seq<string>): (r: string)
    ensures fields == [] <==> r == []
  {
    if fields == [] then []
    else if |fields| == 1 then Quote(fields[0])
    else Quote(fields[0]) + "," + Line(fields[1..])
  }

  /** The lines joined by newlines. */
  function Csv(rows: seq<seq<string>>): (r: string)
    ensures (forall k :: 0 <= k < |rows| ==> rows[k] != []) ==> (r == [] <==> rows == [])
  {
    if rows == [] then []
    else if |rows| == 1 then Line(rows[0])
    else Line(rows[0]) + "\n" + Csv(rows[1..])
  }

  /** The whole file: None when there are no people at all (nothing is downloaded),
      otherwise the header and one row per exported person. */
  function ExportText(org: seq<User>, nodes: Option<set<Email>>, rating: real -> Rating): (r: Option<string>)
    ensures r.None? <==> org == []
  {
    if org == [] then None else Some(Csv([Header] + Rows(Selected(org, nodes), rating)))
  }

  /** Reads the rest of a quoted field after its opening quote: a doubled quote stands for
      one quote, and a single quote closes the field. Gives the value and what follows the
      closing quote. */
  function ReadQuoted(s: string): (r: Option<(string, string)>)
    ensures r.Some? ==> |r.value.1| < |s|
  {
    if s == [] then None
    else if s[0] == '"' then
      if |s| > 1 && s[1] == '"' then
        match ReadQuoted(s[2..])
        case None => None
        case Some((v, rest)) => Some(("\"" + v, rest))
      else Some(([], s[1..]))
    else
      match ReadQuoted(s[1..])
      case None => None
      case Some((v, rest)) => Some(([s[0]] + v, rest))
  }

  /** Reads one quoted field and then further fields as long as a comma follows. */
  function ReadFields(s: string): (r: Option<(seq<string>, string)>)
    ensures r.Some? ==> |r.value.1| < |s|
    decreases |s|
  {
    if s == [] || s[0] != '"' then None
    else
      match ReadQuoted(s[1..])
      case None => None
      case Some((f, rest)) =>
        if rest != [] && rest[0] == ',' then
          match ReadFields(rest[1..])
          case None => None
          case Some((fs, after)) => Some(([f] + fs, after))
        else Some(([f], rest))
  }

  /** Reads lines of quoted fields separated by newlines up to the end of the text. */
  function ReadRows(s: string): Option<seq<seq<string>>>
    decreases |s|
  {
    match ReadFields(s)
    case None => None
    case Some((fs, rest)) =>
      if rest == [] then Some([fs])
      else if rest[0] == '\n' then
        match ReadRows(rest[1..])
        case None => None
        case Some(rows) => Some([fs] + rows)
      else None
  }

  /** A quoted value is read back as the value, whatever follows that does not start with
      a quote. */
  lemma {:induction false} ReadQuotedDouble(v: string, rest: string)
    requires rest == [] || rest[0] != '"'
    ensures ReadQuoted(Double(v) + "\"" + rest) == Some((v, rest))
    decreases |v|
  {
    var s := Double(v) + "\"" + rest;
    if v == [] {
      assert s == "\"" + rest;
      assert s[1..] == rest;
    } else if v[0] == '"' {
      ReadQuotedDouble(v[1..], rest);
      assert s == "\"\"" + (Double(v[1..]) + "\"" + rest);
      assert s[2..] == Double(v[1..]) + "\"" + rest;
      assert "\"" + v[1..] == v;
    } else {
      ReadQuotedDouble(v[1..], rest);
      assert s == [v[0]] + (Double(v[1..]) + "\"" + rest);
      assert s[1..] == Double(v[1..]) + "\"" + rest;
      assert [v[0]] + v[1..] == v;
    }
  }

  /** A quoted field followed by anything that starts with neither a quote nor a comma
      is read as a single field. */
  lemma ReadFieldsLast(f: string, rest: string)
    requires rest == [] || (rest[0] != '"' && rest[0] != ',')
    ensures ReadFields(Quote(f) + rest) == Some(([f], rest))
  {
    var s := Quote(f) + rest;
    assert s[1..] == Double(f) + "\"" + rest;
    ReadQuotedDouble(f, rest);
  }

  /** A quoted field followed by a comma is read as that field and the fields after the
      comma. */
  lemma ReadFieldsNext(f: string, more: string)
    requires ReadFields(more).Some?
    ensures ReadFields(Quote(f) + "," + more)
      == Some(([f] + ReadFields(more).value.0, ReadFields(more).value.1))
  {
    var s := Quote(f) + "," + more;
    var tail := "," + more;
    assert s[1..] == Double(f) + "\"" + tail;
    ReadQuotedDouble(f, tail);
    assert tail[1..] == more;
  }

  /** A line is read back as its fields, when a newline or the end of the text follows. */
  lemma {:induction false} ReadFieldsLine(fields: seq<string>, rest: string)
    requires fields != []
    requires rest == [] || rest[0] == '\n'
    ensures ReadFields(Line(fields) + rest) == Some((fields, rest))
    decreases |fields|
  {
    var f := fields[0];
    if |fields| == 1 {
      ReadFieldsLast(f, rest);
      assert Line(fields) == Quote(f);
      assert [f] == fields;
    } else {
      var more := Line(fields[1..]) + rest;
      ReadFieldsLine(fields[1..], rest);
      assert ReadFields(more) == Some((fields[1..], rest));
      ReadFieldsNext(f, more);
      assert Line(fields) + rest == Quote(f) + "," + more;
      assert [f] + fields[1..] == fields;
    }
  }

  /** A last line is read as a single row. */
  lemma ReadRowsLast(fields: seq<string>)
    requires fields != []
    ensures ReadRows(Line(fields)) == Some([fields])
  {
    ReadFieldsLine(fields, []);
    assert Line(fields) + [] == Line(fields);
  }

  /** A line followed by a newline is read as its row and the rows after the newline. */
  lemma ReadRowsNext(fields: seq<string>, more: string)
    requires fields != [] && ReadRows(more).Some?
    ensures ReadRows(Line(fields) + "\n" + more) == Some([fields] + ReadRows(more).value)
  {
    var rest := "\n" + more;
    ReadFieldsLine(fields, rest);
    assert Line(fields) + "\n" + more == Line(fields) + rest;
    assert rest[1..] == more;
  }

  /** The text written for rows of fields is read back as those rows. */
  lemma {:induction false} ReadRowsCsv(rows: seq<seq<string>>)
    requires rows != [] && forall k :: 0 <= k < |rows| ==> rows[k] != []
    ensures ReadRows(Csv(rows)) == Some(rows)
    decreases |rows|
  {
    if |rows| == 1 {
      ReadRowsLast(rows[0]);
      assert rows == [rows[0]];
    } else {
      ReadRowsCsv(rows[1..]);
      ReadRowsNext(rows[0], Csv(rows[1..]));
      assert [rows[0]] + rows[1..] == rows;
    }
  }

  /** The downloaded file holds exactly the header and, in order, one row per exported
      person: read back, its first row is the header and its row k + 1 is person k's
      row, with "Yes" in the License column exactly for a licensed person. */
  lemma ExportReadsBack(org: seq<User>, nodes: Option<set<Email>>, rating: real -> Rating)
    requires org != []
    ensures var people := Selected(org, nodes);
      && ExportText(org, nodes, rating).Some?
      && ReadRows(ExportText(org, nodes, rating).value) == Some([Header] + Rows(people, rating))
      && forall k :: 0 <= k < |people| ==>
           (([Header] + Rows(people, rating))[k + 1][5] == "Yes" <==> people[k].hasLicense)
  {
    var rows := [Header] + Rows(Selected(org, nodes), rating);
    forall k | 0 <= k < |rows| ensures rows[k] != [] {
      if k > 0 {
        assert |rows[k]| == |Header|;
      }
    }
    ReadRowsCsv(rows);
  }
}
