/**
  `write_report` (pynocle/utils.py:68-79), as the sequence of calls it makes.
  Opening the file, calling the factory and the three formatter methods are
  events; the `with` statement closes the file whether or not a later call
  raises. Which call raises, if any, is a parameter: the model does not look
  inside the formatter or the filesystem.
 */
module Report {
  import opened Wrappers

  datatype Event<D> = Open(filename: string) | MakeFormatter | Header | Data(data: D) | Footer | Close

  /** The call that raises. */
  datatype Step = OpenFile | CallFactory | WriteHeader | WriteData | WriteFooter

  datatype Outcome = Completed | Raised(at: Step)

  /** The calls made inside the `with` block, one per step, in order. */
  function Body<D>(data: D): seq<Event<D>> {
    [MakeFormatter, Header, Data(data), Footer]
  }

  /** The position of a step inside the `with` block. */
  function BodyIndex(s: Step): nat
    requires s != OpenFile
  {
    match s
    case CallFactory => 0
    case WriteHeader => 1
    case WriteData => 2
    case WriteFooter => 3
  }

  /** The events of `write_report(filename, data, factory)` when `fault`
      raises, and how the call ends. */
  function WriteReport<D>(filename: string, data: D, fault: Option<Step>): (r: (seq<Event<D>>, Outcome))
    ensures r.1 == Completed <==> fault.None?
    ensures r.1.Raised? ==> r.1.at == fault.value
    ensures fault == Some(OpenFile) ==> r.0 == []
    ensures fault != Some(OpenFile) ==>
      && |r.0| >= 2
      && r.0[0] == Open(filename)
      && r.0[|r.0| - 1] == Close
      && Close !in r.0[..|r.0| - 1]
      && r.0[1..|r.0| - 1] <= Body(data)
    ensures fault.None? ==> r.0[1..|r.0| - 1] == Body(data)
    ensures fault.Some? && fault.value != OpenFile ==>
      r.0[1..|r.0| - 1] == Body(data)[..BodyIndex(fault.value) + 1]
  {
    if fault == Some(OpenFile) then ([], Raised(OpenFile))
    else
      var body := Body(data);
      var made := if fault.None? then body else body[..BodyIndex(fault.value) + 1];
      assert made <= body;
      assert Close !in made by {
        assert forall k :: 0 <= k < |made| ==> made[k] == body[k];
        assert Close !in body;
      }
      var r := [Open(filename)] + made + [Close];
      assert r[1..|r| - 1] == made && r[..|r| - 1] == [Open(filename)] + made;
      (r, if fault.None? then Completed else Raised(fault.value))
  }

  /** Without a fault, header, data and footer are written in that order
      between opening and closing the file. */
  lemma CompletedOrder<D>(filename: string, data: D)
    ensures WriteReport(filename, data, None).0
         == [Open(filename), MakeFormatter, Header, Data(data), Footer, Close]
  {
  }

  /** Data is written only after the header. */
  lemma DataAfterHeader<D>(filename: string, data: D, fault: Option<Step>, i: nat)
    requires i < |WriteReport(filename, data, fault).0| && WriteReport(filename, data, fault).0[i] == Data(data)
    ensures exists j :: 0 <= j < i && WriteReport(filename, data, fault).0[j] == Header
  {
    var t := WriteReport(filename, data, fault).0;
    var body := Body(data);
    assert t[1..|t| - 1] <= body;
    assert t[i] != Close && t[i] != Open(filename);
    assert 1 <= i < |t| - 1;
    assert t[i] == body[i - 1];
    assert i == 3;
    assert t[2] == body[1];
  }
}
