/**
 * The access-point check of the WSAPI plugin: each access point's status
 * is rated, down access points are counted and raise the aggregate code,
 * and the first output line and the detail table are built.
 */
module HpeWsapi {
  import opened Wrappers
  import opened PyText
  import GenericPlugin

  /** An access point as the monitoring API returns it; any field may be missing. */
  datatype AccessPoint = AccessPoint(
    serial: Option<string>,
    status: Option<string>,
    name: Option<string>,
    firmwareVersion: Option<string>,
    model: Option<string>,
    site: Option<string>)

  /** An access point after the loop has added its return code and its label. */
  datatype RatedAccessPoint = RatedAccessPoint(ap: AccessPoint, rcode: int, icingaStatus: string)

  /** The known raw statuses and their return codes. */
  const ErrorMap: map<string, int> := map["Up" := GenericPlugin.OK, "Down" := GenericPlugin.CRITICAL]

  const TableHead: seq<string> := ["Serial", "STS", "Name ", "Firmware", "Model", "Site", "RC"]

  /** The legend appended below the rendered table in the detail text. */
  const DetailFooter := "\n\nSTS == Aruba central status (raw)" + "\nRC == Return code of check plugin (intrepreted)"

  /** Printed before the plugin exits with status 0 when no access point is returned. */
  const NoAccessPointsMessage := "No Access Points returned from Aruba Networking Central"

  /** The return code of a raw status: a missing or unknown status is UNKNOWN. */
  function StatusCode(status: Option<string>): (rc: int)
    ensures rc == GenericPlugin.OK <==> status == Some("Up")
    ensures rc == GenericPlugin.CRITICAL <==> status == Some("Down")
    ensures rc == GenericPlugin.UNKNOWN <==> status != Some("Up") && status != Some("Down")
  {
    if status.Some? && status.value in ErrorMap then ErrorMap[status.value] else GenericPlugin.UNKNOWN
  }

  /** One line of the detail table: the raw fields, then the access point's label. */
  function TableRow(r: RatedAccessPoint): (row: seq<Option<string>>)
    ensures |row| == |TableHead|
    ensures row[1] == r.ap.status && row[|row| - 1] == Some(r.icingaStatus)
  {
    [r.ap.serial, r.ap.status, r.ap.name, r.ap.firmwareVersion, r.ap.model, r.ap.site, Some(r.icingaStatus)]
  }

  /** What the loop makes of one access point: its code and the rcstring label of that code. */
  function Rate(ap: AccessPoint): (r: RatedAccessPoint)
    ensures r.ap == ap && r.rcode == StatusCode(ap.status)
    ensures GenericPlugin.RcString(r.rcode, GenericPlugin.DefaultBrace) == Some(r.icingaStatus)
  {
    var code := StatusCode(ap.status);
    RatedAccessPoint(ap, code, GenericPlugin.RcString(code, GenericPlugin.DefaultBrace).value)
  }

  /** The first n access points rated, in input order. */
  function RatedPrefix(aps: seq<AccessPoint>, n: nat): (rated: seq<RatedAccessPoint>)
    requires n <= |aps|
    ensures |rated| == n
  {
    if n == 0 then [] else RatedPrefix(aps, n - 1) + [Rate(aps[n - 1])]
  }

  /** Every access point rated, in input order. */
  function RateAll(aps: seq<AccessPoint>): (rated: seq<RatedAccessPoint>)
    ensures |rated| == |aps|
  {
    RatedPrefix(aps, |aps|)
  }

  /** The k-th rated access point is the k-th access point, rated. */
  lemma {:induction false} RatedPrefixAt(aps: seq<AccessPoint>, n: nat, k: nat)
    requires k < n <= |aps|
    ensures RatedPrefix(aps, n)[k] == Rate(aps[k])
  {
    if k < n - 1 {
      RatedPrefixAt(aps, n - 1, k);
    }
  }

  /** One table row per rated access point, in the same order. */
  function TableRows(rated: seq<RatedAccessPoint>): (rows: seq<seq<Option<string>>>)
    ensures |rows| == |rated|
  {
    if rated == [] then [] else TableRows(rated[..|rated| - 1]) + [TableRow(rated[|rated| - 1])]
  }

  /** The k-th table row is the row of the k-th rated access point. */
  lemma {:induction false} TableRowsAt(rated: seq<RatedAccessPoint>, k: nat)
    requires k < |rated|
    ensures TableRows(rated)[k] == TableRow(rated[k])
  {
    if k < |rated| - 1 {
      TableRowsAt(rated[..|rated| - 1], k);
    }
  }

  predicate SomeDown(aps: seq<AccessPoint>) {
    exists i :: 0 <= i < |aps| && aps[i].status == Some("Down")
  }

  /** The number of access points reported Down among the first n. */
  function DownPrefix(aps: seq<AccessPoint>, n: nat): (d: nat)
    requires n <= |aps|
    ensures d <= n
  {
    if n == 0 then 0
    else DownPrefix(aps, n - 1) + (if StatusCode(aps[n - 1].status) == GenericPlugin.CRITICAL then 1 else 0)
  }

  /** The number of access points reported Down. */
  function CountDown(aps: seq<AccessPoint>): (n: nat)
    ensures n <= |aps|
  {
    DownPrefix(aps, |aps|)
  }

  /** Some access point is down exactly when the down count is positive. */
  lemma CountDownPositive(aps: seq<AccessPoint>)
    ensures CountDown(aps) > 0 <==> SomeDown(aps)
  {
    DownPrefixPositive(aps, |aps|);
  }

  lemma {:induction false} DownPrefixPositive(aps: seq<AccessPoint>, n: nat)
    requires n <= |aps|
    ensures DownPrefix(aps, n) > 0 <==> exists i :: 0 <= i < n && aps[i].status == Some("Down")
  {
    if n > 0 {
      DownPrefixPositive(aps, n - 1);
    }
  }

  /** The down count of a prefix depends only on that prefix. */
  lemma {:induction false} DownPrefixOnlyPrefix(a: seq<AccessPoint>, b: seq<AccessPoint>, n: nat)
    requires n <= |a| && n <= |b| && a[..n] == b[..n]
    ensures DownPrefix(a, n) == DownPrefix(b, n)
  {
    if n > 0 {
      assert a[n - 1] == a[..n][n - 1] == b[..n][n - 1] == b[n - 1];
      assert a[..n - 1] == a[..n][..n - 1] == b[..n][..n - 1] == b[..n - 1];
      DownPrefixOnlyPrefix(a, b, n - 1);
    }
  }

  /** "{}".format(count): the decimal number, or "None" when the answer had no count. */
  function FormatCount(count: Option<nat>): (s: string)
    ensures s == "None" <==> count.None?
    ensures count.Some? ==> (forall i :: 0 <= i < |s| ==> IsDigit(s[i])) && DecimalValue(s) == count.value
  {
    match count
    case None => "None"
    case Some(n) =>
      DecimalRoundTrip(n);
      var s := DecimalString(n);
      assert !IsDigit("None"[0]);
      s
  }

  /** The first output line of a check without error. */
  function SummaryLine(count: Option<nat>, down: nat): (line: string)
    ensures var head := "Number of access points: " + FormatCount(count);
            |line| > |head| && line[..|head|] == head
    ensures down == 0 <==> line[|line| - 8..] == ", all UP"
  {
    var head := "Number of access points: " + FormatCount(count);
    var tail := if down > 0 then ", DOWN: " + DecimalString(down) else ", all UP";
    var line := head + tail;
    assert down > 0 ==> line[|line| - 8..] != ", all UP" by {
      if down > 0 {
        var digits := DecimalString(down);
        assert line[|line| - 1] == digits[|digits| - 1];
        assert IsDigit(line[|line| - 1]);
        assert line[|line| - 8..][7] == line[|line| - 1];
      }
    }
    line
  }

  /** The first line determines the number of down access points. */
  lemma SummaryRevealsDown(count: Option<nat>, d1: nat, d2: nat)
    requires SummaryLine(count, d1) == SummaryLine(count, d2)
    ensures d1 == d2
  {
    var prefix := "Number of access points: " + FormatCount(count);
    var s1 := if d1 > 0 then ", DOWN: " + DecimalString(d1) else ", all UP";
    var s2 := if d2 > 0 then ", DOWN: " + DecimalString(d2) else ", all UP";
    assert s1 == (prefix + s1)[|prefix|..];
    assert s2 == (prefix + s2)[|prefix|..];
    if d1 > 0 && d2 > 0 {
      assert DecimalString(d1) == s1[8..];
      assert DecimalString(d2) == s2[8..];
      DecimalStringInjective(d1, d2);
    }
  }

  /** Python truthiness of the request error: present and not empty. */
  predicate Truthy(error: Option<string>) {
    error.Some? && error.value != ""
  }

  /**
   * The parts of the detail text: the table, rendered with its header by a
   * table library, and the legend that follows it.
   */
  datatype Detail = Detail(head: seq<string>, rows: seq<seq<Option<string>>>, footer: string)

  /**
   * What checkAPs yields: when no access point was returned, the line it
   * prints and the status it exits with; otherwise the return code, the
   * first output line and the detail.
   */
  datatype ApOutcome =
    | NoAccessPoints(message: string, exitCode: int)
    | Checked(rcode: int, output: string, detail: Detail)

  /**
   * The loop of checkAPs over the access points: each one rated and given a
   * table row, down access points counted, and the aggregate code raised
   * with update_rc by each of them.
   */
  method RateAccessPoints(aps: seq<AccessPoint>)
    returns (rated: seq<RatedAccessPoint>, table: seq<seq<Option<string>>>, rcode: int, cDown: nat)
    ensures rated == RateAll(aps)
    ensures table == TableRows(rated)
    ensures cDown == CountDown(aps)
    ensures rcode == if SomeDown(aps) then GenericPlugin.CRITICAL else GenericPlugin.OK
  {
    rated, table, rcode, cDown := [], [], GenericPlugin.OK, 0;
    for i := 0 to |aps|
      invariant rated == RatedPrefix(aps, i)
      invariant table == TableRows(rated)
      invariant cDown == DownPrefix(aps, i)
      invariant rcode == if cDown > 0 then GenericPlugin.CRITICAL else GenericPlugin.OK
    {
      var ap := aps[i];
      var code := StatusCode(ap.status);
      var icingaStatus := GenericPlugin.RcString(code, GenericPlugin.DefaultBrace).value;
      if code == GenericPlugin.CRITICAL {
        rcode := GenericPlugin.UpdateRc(GenericPlugin.CRITICAL, rcode);
        cDown := cDown + 1;
      }
      var r := RatedAccessPoint(ap, code, icingaStatus);
      ghost var before := rated;
      rated := rated + [r];
      assert rated[..i] == before;
      table := table + [TableRow(r)];
    }
    CountDownPositive(aps);
  }

  /** checkAPs, from the already fetched access points, their count and the request error. */
  method CheckAps(aps: seq<AccessPoint>, count: Option<nat>, error: Option<string>)
    returns (outcome: ApOutcome, rated: seq<RatedAccessPoint>)
    ensures aps == [] <==> outcome.NoAccessPoints?
    ensures outcome.NoAccessPoints? ==> outcome == NoAccessPoints(NoAccessPointsMessage, GenericPlugin.OK)
    ensures rated == RateAll(aps)
    ensures outcome.Checked? ==> outcome.detail == Detail(TableHead, TableRows(rated), DetailFooter)
    ensures outcome.Checked? ==>
              outcome.rcode == if Truthy(error) then GenericPlugin.UNKNOWN
                               else if SomeDown(aps) then GenericPlugin.CRITICAL
                               else GenericPlugin.OK
    ensures outcome.Checked? ==>
              outcome.output == if Truthy(error) then error.value else SummaryLine(count, CountDown(aps))
  {
    if |aps| == 0 {
      return NoAccessPoints(NoAccessPointsMessage, GenericPlugin.OK), [];
    }
    var table, rcode, cDown;
    rated, table, rcode, cDown := RateAccessPoints(aps);
    var output := SummaryLine(count, cDown);
    if Truthy(error) {
      rcode := GenericPlugin.UNKNOWN;
      output := error.value;
    }
    outcome := Checked(rcode, output, Detail(TableHead, table, DetailFooter));
  }

  /** An access point of unknown status changes neither the down count nor whether any is down. */
  lemma UnknownStatusDoesNotRaise(aps: seq<AccessPoint>, ap: AccessPoint)
    requires StatusCode(ap.status) == GenericPlugin.UNKNOWN
    ensures CountDown(aps + [ap]) == CountDown(aps)
    ensures SomeDown(aps + [ap]) == SomeDown(aps)
  {
    assert (aps + [ap])[..|aps|] == aps[..|aps|];
    DownPrefixOnlyPrefix(aps + [ap], aps, |aps|);
    CountDownPositive(aps + [ap]);
    CountDownPositive(aps);
  }

  /**
   * The k-th row of the table belongs to the k-th access point: its raw
   * status, and in the last column the rcstring label of its code.
   */
  lemma TableRowOfAccessPoint(aps: seq<AccessPoint>, k: nat)
    requires k < |aps|
    ensures var row := TableRows(RateAll(aps))[k];
            row == TableRow(Rate(aps[k]))
            && row[1] == aps[k].status
            && row[|row| - 1] == GenericPlugin.RcString(StatusCode(aps[k].status), GenericPlugin.DefaultBrace)
  {
    TableRowsAt(RateAll(aps), k);
    RatedPrefixAt(aps, |aps|, k);
  }
}
