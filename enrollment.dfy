/** The script body of Add_Mac_ISE.py: the loop that reads the MAC file into
    mac_list, add_mac's accounting into the global lists mac_success and
    mac_error, and the run that joins them to group resolution.

    The service's answer to each endpoint creation request is an input, one
    per request in the order the requests are sent: its status code, and
    whether the body of a refusal can be read for its error message. */
module Enrollment {
  import opened MacFormat
  import opened GroupResolution

  /** The status code the service returns for a created resource. */
  const StatusCreated: int := 201

  /** What the read loop does with one line of the file. */
  function FormatLine(line: string): (r: MacResult) {
    FormatMac(Strip(line))
  }

  /** Surrounding whitespace makes no difference to the formatted address. */
  lemma FormatLineIgnoresWhitespace(line: string)
    ensures FormatLine(line).Ok? <==> FormatMac(line).Ok?
    ensures FormatLine(line).Ok? ==> FormatLine(line).mac == FormatMac(line).mac
    ensures FormatLine(line).LengthError? ==> FormatLine(line).address == Strip(line)
  {
    StripKeepsHexDigits(line);
  }

  /** What one line adds to mac_list: its address if it formats, else nothing. */
  function Added(r: MacResult): (macs: seq<string>)
    ensures |macs| == if r.Ok? then 1 else 0
  {
    if r.Ok? then [r.mac] else []
  }

  /** What one line adds to the report: the stripped line if it does not format. */
  function Reported(r: MacResult): (addresses: seq<string>)
    ensures |addresses| == if r.Ok? then 0 else 1
  {
    if r.Ok? then [] else [r.address]
  }

  /** mac_list after the read loop: the formatted address of every line that
      formats, in file order. */
  function Formatted(lines: seq<string>): (macs: seq<string>)
    ensures |macs| <= |lines|
  {
    if lines == [] then [] else Added(FormatLine(lines[0])) + Formatted(lines[1..])
  }

  /** Every entry of mac_list is a canonical MAC address. */
  lemma {:induction false} FormattedCanonical(lines: seq<string>)
    ensures forall i :: 0 <= i < |Formatted(lines)| ==> IsCanonical(Formatted(lines)[i])
  {
    if lines != [] {
      FormattedCanonical(lines[1..]);
      var r := FormatLine(lines[0]);
      if r.Ok? {
        FormatMacOutput(Strip(lines[0]));
      }
    }
  }

  /** The stripped lines the read loop reports as not formattable, in file order. */
  function Rejected(lines: seq<string>): (reported: seq<string>)
    ensures |reported| <= |lines|
  {
    if lines == [] then [] else Reported(FormatLine(lines[0])) + Rejected(lines[1..])
  }

  /** Lines are handled one at a time: what a line contributes does not
      depend on the lines around it, so a failing line does not stop the
      lines after it. */
  lemma {:induction false} FormattedAppend(a: seq<string>, b: seq<string>)
    ensures Formatted(a + b) == Formatted(a) + Formatted(b)
    ensures Rejected(a + b) == Rejected(a) + Rejected(b)
  {
    if a == [] {
      assert a + b == b;
    } else {
      var r := FormatLine(a[0]);
      assert (a + b)[0] == a[0];
      assert (a + b)[1..] == a[1..] + b;
      FormattedAppend(a[1..], b);
      calc {
        Formatted(a + b);
        Added(r) + Formatted(a[1..] + b);
        Added(r) + (Formatted(a[1..]) + Formatted(b));
        (Added(r) + Formatted(a[1..])) + Formatted(b);
      }
      calc {
        Rejected(a + b);
        Reported(r) + Rejected(a[1..] + b);
        Reported(r) + (Rejected(a[1..]) + Rejected(b));
        (Reported(r) + Rejected(a[1..])) + Rejected(b);
      }
    }
  }

  /** The read loop's step: the first i + 1 lines contribute what the first i
      do, followed by what line i does. */
  lemma LinesStep(lines: seq<string>, i: nat)
    requires i < |lines|
    ensures Formatted(lines[..i + 1]) == Formatted(lines[..i]) + Added(FormatLine(lines[i]))
    ensures Rejected(lines[..i + 1]) == Rejected(lines[..i]) + Reported(FormatLine(lines[i]))
  {
    assert lines[..i + 1] == lines[..i] + [lines[i]];
    FormattedAppend(lines[..i], [lines[i]]);
    assert [lines[i]][1..] == [];
  }

  /** Every line is either added to mac_list or reported, never both. */
  lemma {:induction false} FormattedOrRejected(lines: seq<string>)
    ensures |Formatted(lines)| + |Rejected(lines)| == |lines|
  {
    if lines != [] {
      FormattedOrRejected(lines[1..]);
    }
  }

  /** A MAC is in mac_list exactly when some line of the file formats to it. */
  lemma {:induction false} FormattedMember(lines: seq<string>, m: string)
    ensures m in Formatted(lines) <==> exists i :: 0 <= i < |lines| && FormatLine(lines[i]) == Ok(m)
  {
    if lines != [] {
      FormattedMember(lines[1..], m);
      if exists i :: 0 <= i < |lines| && FormatLine(lines[i]) == Ok(m) {
        var i :| 0 <= i < |lines| && FormatLine(lines[i]) == Ok(m);
        if i > 0 {
          assert lines[1..][i - 1] == lines[i];
        }
      }
      if exists i :: 0 <= i < |lines[1..]| && FormatLine(lines[1..][i]) == Ok(m) {
        var i :| 0 <= i < |lines[1..]| && FormatLine(lines[1..][i]) == Ok(m);
        assert lines[i + 1] == lines[1..][i];
      }
    }
  }

  /** When every line formats, mac_list has one entry per line, in line
      order; repeated lines give repeated entries. */
  lemma {:induction false} FormattedAllLines(lines: seq<string>)
    requires forall i :: 0 <= i < |lines| ==> FormatLine(lines[i]).Ok?
    ensures |Formatted(lines)| == |lines|
    ensures forall i :: 0 <= i < |lines| ==> Formatted(lines)[i] == FormatLine(lines[i]).mac
  {
    if lines != [] {
      var rest := lines[1..];
      assert forall i :: 0 <= i < |rest| ==> FormatLine(rest[i]).Ok? by {
        forall i | 0 <= i < |rest| ensures FormatLine(rest[i]).Ok? {
          assert rest[i] == lines[i + 1];
        }
      }
      FormattedAllLines(rest);
      var head := FormatLine(lines[0]).mac;
      assert Formatted(lines) == [head] + Formatted(rest);
      forall i | 0 <= i < |lines| ensures Formatted(lines)[i] == FormatLine(lines[i]).mac {
        if i > 0 {
          assert rest[i - 1] == lines[i];
        }
      }
    }
  }

  /** The parts of the service's answer to one endpoint creation request that
      add_mac depends on: the status code, and whether the body is well-formed
      XML whose title element, when there is one, has text. add_mac reads the
      body of a refusal only; when it cannot be read, the parser raises, nothing
      catches the exception, and the script ends there. */
  datatype EndpointAnswer = EndpointAnswer(status: int, bodyParses: bool)

  /** An answer that ends the script: a refusal whose body cannot be read. */
  predicate Aborts(a: EndpointAnswer) {
    a.status != StatusCreated && !a.bodyParses
  }

  /** The number of requests add_mac completes: those before the first
      answer that ends the script, or all of them. */
  function Completed(answers: seq<EndpointAnswer>): (n: nat)
    ensures n <= |answers|
    ensures forall i :: 0 <= i < n ==> !Aborts(answers[i])
    ensures n < |answers| ==> Aborts(answers[n])
  {
    if answers == [] || Aborts(answers[0]) then 0 else 1 + Completed(answers[1..])
  }

  /** The MACs add_mac appends to mac_success: those whose request got 201. */
  function Accepted(macs: seq<string>, answers: seq<EndpointAnswer>): (added: seq<string>)
    requires |answers| == |macs|
    ensures |added| <= |macs|
  {
    if macs == [] then []
    else if answers[0].status == StatusCreated then [macs[0]] + Accepted(macs[1..], answers[1..])
    else Accepted(macs[1..], answers[1..])
  }

  /** The MACs add_mac appends to mac_error: those whose request got anything else. */
  function Refused(macs: seq<string>, answers: seq<EndpointAnswer>): (failed: seq<string>)
    requires |answers| == |macs|
    ensures |failed| <= |macs|
  {
    if macs == [] then []
    else if answers[0].status == StatusCreated then Refused(macs[1..], answers[1..])
    else [macs[0]] + Refused(macs[1..], answers[1..])
  }

  /** The number of requests the service answered with 201. */
  function CountCreated(answers: seq<EndpointAnswer>): (n: nat)
    ensures n <= |answers|
  {
    if answers == [] then 0
    else (if answers[0].status == StatusCreated then 1 else 0) + CountCreated(answers[1..])
  }

  /** Completed requests are handled one at a time: the accounting of a run
      of requests is the accounting of its first part followed by that of
      the rest. */
  lemma {:induction false} AccountingAppend(m1: seq<string>, a1: seq<EndpointAnswer>,
                                            m2: seq<string>, a2: seq<EndpointAnswer>)
    requires |a1| == |m1| && |a2| == |m2|
    ensures Accepted(m1 + m2, a1 + a2) == Accepted(m1, a1) + Accepted(m2, a2)
    ensures Refused(m1 + m2, a1 + a2) == Refused(m1, a1) + Refused(m2, a2)
  {
    if m1 == [] {
      assert m1 + m2 == m2 && a1 + a2 == a2;
    } else {
      assert (m1 + m2)[1..] == m1[1..] + m2;
      assert (a1 + a2)[1..] == a1[1..] + a2;
      AccountingAppend(m1[1..], a1[1..], m2, a2);
    }
  }

  /** add_mac's step: the first i + 1 requests are accounted as the first i
      are, followed by request i in the list its status selects. */
  lemma AccountingStep(macs: seq<string>, answers: seq<EndpointAnswer>, i: nat)
    requires |answers| == |macs| && i < |macs|
    ensures Accepted(macs[..i + 1], answers[..i + 1]) ==
              Accepted(macs[..i], answers[..i]) + (if answers[i].status == StatusCreated then [macs[i]] else [])
    ensures Refused(macs[..i + 1], answers[..i + 1]) ==
              Refused(macs[..i], answers[..i]) + (if answers[i].status == StatusCreated then [] else [macs[i]])
  {
    assert macs[..i + 1] == macs[..i] + [macs[i]];
    assert answers[..i + 1] == answers[..i] + [answers[i]];
    AccountingAppend(macs[..i], answers[..i], [macs[i]], [answers[i]]);
  }

  /** A run that ends early keeps what it had recorded: the lists after n
      completed requests are prefixes of the lists a run completing every
      request would leave. */
  lemma AccountingPrefix(macs: seq<string>, answers: seq<EndpointAnswer>, n: nat)
    requires |answers| == |macs| && n <= |macs|
    ensures Accepted(macs[..n], answers[..n]) <= Accepted(macs, answers)
    ensures Refused(macs[..n], answers[..n]) <= Refused(macs, answers)
  {
    assert macs == macs[..n] + macs[n..];
    assert answers == answers[..n] + answers[n..];
    AccountingAppend(macs[..n], answers[..n], macs[n..], answers[n..]);
  }

  /** M of N requests created: M successes and N - M failures. */
  lemma {:induction false} AccountingCounts(macs: seq<string>, answers: seq<EndpointAnswer>)
    requires |answers| == |macs|
    ensures |Accepted(macs, answers)| == CountCreated(answers)
    ensures |Refused(macs, answers)| == |macs| - CountCreated(answers)
  {
    if macs != [] {
      AccountingCounts(macs[1..], answers[1..]);
    }
  }

  /** Each completed request lands in exactly one of the two lists: together
      they hold every MAC submitted as often as it occurs there. */
  lemma {:induction false} AccountingPartition(macs: seq<string>, answers: seq<EndpointAnswer>)
    requires |answers| == |macs|
    ensures multiset(Accepted(macs, answers)) + multiset(Refused(macs, answers)) == multiset(macs)
  {
    if macs != [] {
      AccountingPartition(macs[1..], answers[1..]);
      assert macs == [macs[0]] + macs[1..];
    }
  }

  /** The i-th MAC goes to the success list when its request got 201 and to
      the error list otherwise. */
  lemma {:induction false} AccountingAt(macs: seq<string>, answers: seq<EndpointAnswer>, i: nat)
    requires |answers| == |macs| && i < |macs|
    ensures answers[i].status == StatusCreated ==> macs[i] in Accepted(macs, answers)
    ensures answers[i].status != StatusCreated ==> macs[i] in Refused(macs, answers)
  {
    if i > 0 {
      AccountingAt(macs[1..], answers[1..], i - 1);
    }
  }

  /** The global state of the script: the list read from the file and the two
      result lists add_mac appends to. */
  class Session {
    var macList: seq<string>
    var macSuccess: seq<string>
    var macError: seq<string>

    constructor ()
      ensures macList == [] && macSuccess == [] && macError == []
    {
      macList := [];
      macSuccess := [];
      macError := [];
    }

    /** The read loop: strip each line, append its formatted address to
        mac_list, or report the stripped line and go on. */
    method ReadMacs(lines: seq<string>) returns (reported: seq<string>)
      modifies this`macList
      ensures macList == old(macList) + Formatted(lines)
      ensures reported == Rejected(lines)
    {
      reported := [];
      var i := 0;
      while i < |lines|
        invariant 0 <= i <= |lines|
        invariant macList == old(macList) + Formatted(lines[..i])
        invariant reported == Rejected(lines[..i])
      {
        var result := FormatLine(lines[i]);
        LinesStep(lines, i);
        if result.Ok? {
          macList := macList + [result.mac];
        } else {
          reported := reported + [result.address];
        }
        assert macList == old(macList) + (Formatted(lines[..i]) + Added(result));
        assert reported == Rejected(lines[..i]) + Reported(result);
        i := i + 1;
      }
      assert lines[..i] == lines;
    }

    /** add_mac: one request per MAC, in order; a MAC whose request got 201
        is appended to mac_success, any other to mac_error once its error
        message has been read. A refusal whose body cannot be read ends the
        run before that MAC is recorded, and no later MAC is sent. */
    method AddMac(macs: seq<string>, answers: seq<EndpointAnswer>) returns (aborted: bool)
      requires |answers| == |macs|
      modifies this`macSuccess, this`macError
      ensures var n := Completed(answers);
              macSuccess == old(macSuccess) + Accepted(macs[..n], answers[..n]) &&
              macError == old(macError) + Refused(macs[..n], answers[..n])
      ensures aborted <==> Completed(answers) < |macs|
      ensures |macSuccess| + |macError| == old(|macSuccess| + |macError|) + Completed(answers)
    {
      aborted := false;
      var i := 0;
      while i < |macs|
        invariant 0 <= i <= |macs|
        invariant i <= Completed(answers)
        invariant macSuccess == old(macSuccess) + Accepted(macs[..i], answers[..i])
        invariant macError == old(macError) + Refused(macs[..i], answers[..i])
      {
        assert Aborts(answers[i]) ==> Completed(answers) == i;
        if answers[i].status != StatusCreated && !answers[i].bodyParses {
          AccountingCounts(macs[..i], answers[..i]);
          aborted := true;
          return;
        }
        AccountingStep(macs, answers, i);
        if answers[i].status == StatusCreated {
          macSuccess := macSuccess + [macs[i]];
        } else {
          macError := macError + [macs[i]];
        }
        i := i + 1;
      }
      AccountingCounts(macs[..i], answers[..i]);
    }
  }

  /** How a run of the script ends. */
  datatype RunOutcome =
    | NotConfirmed                            // the operator did not answer S or s
    | GroupUnresolved(resolution: Resolution) // create_group stopped the script
    | AddMacAborted(mac: string)              // the refusal of this MAC could not be read
    | Finished(groupId: Option<string>, added: nat, failed: nat)

  /** The group id create_group hands to add_mac, when it returns one. */
  function GroupIdOf(r: Resolution): (id: Option<string>)
    requires r.Created? || r.Reused?
    ensures r.Created? ==> id == Some(r.id)
    ensures r.Reused? ==> id == r.found
  {
    if r.Created? then Some(r.id) else r.found
  }

  /** One run: read the file, ask for confirmation, resolve the group, submit
      the MACs and count the results. Nothing is submitted unless the
      operator answers S or s and create_group returns; the counts are
      reached only when no refusal's body is unreadable. */
  method RunScript(lines: seq<string>, confirm: string, response: CreateResponse,
                   reuseAnswer: string, lookup: LookupResponse, answers: seq<EndpointAnswer>)
      returns (session: Session, outcome: RunOutcome)
    requires |answers| == |Formatted(lines)|
    ensures fresh(session)
    ensures session.macList == Formatted(lines)
    ensures !IsConfirmed(confirm) ==>
              outcome == NotConfirmed && session.macSuccess == [] && session.macError == []
    ensures IsConfirmed(confirm) ==>
              var r := CreateGroup(response, reuseAnswer, lookup);
              var macs := Formatted(lines);
              var n := Completed(answers);
              if r.Created? || r.Reused? then
                session.macSuccess == Accepted(macs[..n], answers[..n]) &&
                session.macError == Refused(macs[..n], answers[..n]) &&
                outcome == if n < |macs| then AddMacAborted(macs[n])
                           else Finished(GroupIdOf(r), CountCreated(answers), |answers| - CountCreated(answers))
              else
                outcome == GroupUnresolved(r) && session.macSuccess == [] && session.macError == []
  {
    session := new Session();
    var reported := session.ReadMacs(lines);
    if !IsConfirmed(confirm) {
      return session, NotConfirmed;
    }
    var r := CreateGroup(response, reuseAnswer, lookup);
    if !(r.Created? || r.Reused?) {
      return session, GroupUnresolved(r);
    }
    var macs := session.macList;
    var aborted := session.AddMac(macs, answers);
    var n := Completed(answers);
    if aborted {
      return session, AddMacAborted(macs[n]);
    }
    assert macs[..n] == macs && answers[..n] == answers;
    AccountingCounts(macs, answers);
    outcome := Finished(GroupIdOf(r), |session.macSuccess|, |session.macError|);
  }
}
