/**
 * The `print` and `delete` commands of the terminal thread (STM32code.c:323-340): the
 * argument is parsed with `stringtoint`, a non-digit argument is reported, and otherwise
 * the parsed amount goes to the history. Because the parser yields either -1 or a
 * non-negative value, the history only ever sees non-negative amounts.
 */
module Terminal {
  import opened RingLayout
  import opened Decimal
  import opened SampleHistory

  /** Outcome of a command: the argument was rejected, or the history produced a report. */
  datatype Reply<R> = NotAnInteger | Ran(report: R)

  /** `print <arg>`: a digit argument yields the listing of that many oldest records. */
  method PrintCommand(h: History, arg: string) returns (r: Reply<PrintReport>)
    requires h.Valid()
    ensures !AllDigits(arg) ==> r == NotAnInteger
    ensures AllDigits(arg) ==> r == Ran(Listing(h.Window, h.pos, Value(arg)))
  {
    var n := ParseInt(arg);
    ResultMeaning(arg);
    if n == -1 {
      return NotAnInteger;
    }
    var report := h.Print(n);
    return Ran(report);
  }

  /** `delete <arg>`: a digit argument removes that many oldest records, clamped to the count. */
  method DeleteCommand(h: History, arg: string) returns (r: Reply<DeleteReport>)
    requires h.Valid()
    modifies h, h.buf
    ensures h.Valid()
    ensures !AllDigits(arg) ==> r == NotAnInteger && unchanged(h, h.buf)
    ensures AllDigits(arg) ==>
      var m := Min(Value(arg), old(h.count));
      && r == Ran(if old(h.count) == 0 then NoRecordsToDelete else Deleted(old(h.count), m))
      && h.Window == old(h.Window)[m..]
      && h.count == old(h.count) - m
      && h.pos == old(h.pos)
  {
    var n := ParseInt(arg);
    ResultMeaning(arg);
    if n == -1 {
      return NotAnInteger;
    }
    var report := h.Delete(n);
    return Ran(report);
  }

  /**
   * A session: three samples, a listing and a pruning, with the outcomes that the
   * contracts above pin down.
   */
  method Session()
  {
    var h := new History();
    h.Append(3.0);
    h.Append(4.0);
    h.Append(5.0);
    assert h.Window == [3.0, 4.0, 5.0];
    assert Sum(h.Window) == 12.0 by {
      assert h.Window[1..] == [4.0, 5.0] && h.Window[1..][1..] == [5.0];
      assert Sum([5.0]) == 5.0 by { assert [5.0][1..] == []; }
    }
    var shown := PrintCommand(h, "2");
    assert Value("2") == 2 by {
      assert "2"[..0] == [];
    }
    assert shown.Ran? && shown.report.inMemory == 3 && shown.report.average == 4.0;
    assert |shown.report.lines| == 2;
    assert shown.report.lines[0].value == 3.0 && shown.report.lines[1].value == 4.0;
    var removed := DeleteCommand(h, "9");
    assert Value("9") == 9 by {
      assert "9"[..0] == [];
    }
    assert removed == Ran(Deleted(3, 3));
    assert h.count == 0;
  }
}
