/** The per-session entry store: two parallel lists, one of SGPAs and one
    of credits, changed in place by the add, remove-last and clear buttons.
    Each button press is one atomic transition; the summary is recomputed
    from the lists on every read. */
module Session {
  import opened Summary
  import opened Export

  class SessionState {
    var sgpaList: seq<real>
    var creditsList: seq<real>

    /** The lists stay equal in length and index-aligned, and every value
        kept the bounds that the input widgets enforced when it was added. */
    ghost predicate Valid()
      reads this
    {
      && |sgpaList| == |creditsList|
      && forall i :: 0 <= i < |sgpaList| ==> InBounds(Entry(sgpaList[i], creditsList[i]))
    }

    /** The lists read pairwise, as the app zips them. */
    function Entries(): (es: seq<Entry>)
      reads this
      requires Valid()
      ensures |es| == |sgpaList|
      ensures forall i :: 0 <= i < |es| ==> es[i].grade == sgpaList[i] && es[i].credit == creditsList[i]
      ensures AllInBounds(es)
    {
      Zip(sgpaList, creditsList)
    }

    /** A new session starts with both lists empty. */
    constructor ()
      ensures Valid()
      ensures sgpaList == [] && creditsList == []
      ensures Entries() == []
    {
      sgpaList := [];
      creditsList := [];
    }

    /** Add Semester: the grade goes to the end of one list and the credit
        to the end of the other; nothing earlier moves. */
    method Add(grade: real, credit: real)
      requires Valid()
      requires 0.0 <= grade <= MaxGrade && 0.0 <= credit
      modifies this
      ensures Valid()
      ensures sgpaList == old(sgpaList) + [grade]
      ensures creditsList == old(creditsList) + [credit]
      ensures Entries() == old(Entries()) + [Entry(grade, credit)]
    {
      sgpaList := sgpaList + [grade];
      creditsList := creditsList + [credit];
    }

    /** Remove Last Semester: offered only while the lists are non-empty;
        it drops the final element of both lists. */
    method RemoveLast()
      requires Valid()
      requires |sgpaList| > 0
      modifies this
      ensures Valid()
      ensures sgpaList == old(sgpaList)[..|old(sgpaList)| - 1]
      ensures creditsList == old(creditsList)[..|old(creditsList)| - 1]
      ensures Entries() == old(Entries())[..|old(Entries())| - 1]
    {
      sgpaList := sgpaList[..|sgpaList| - 1];
      creditsList := creditsList[..|creditsList| - 1];
    }

    /** Clear All: both lists become empty whatever they held. */
    method ClearAll()
      requires Valid()
      modifies this
      ensures Valid()
      ensures sgpaList == [] && creditsList == []
      ensures Entries() == []
    {
      sgpaList := [];
      creditsList := [];
    }

    /** Export Now: offered only while the lists are non-empty; it hands the
        chosen encoder the rows built from the current entries, which carry
        every entry in order plus the format's fixed extra rows. */
    method ExportRows(format: Format) returns (rows: seq<Row>)
      requires Valid()
      requires |sgpaList| > 0
      ensures DataEntries(rows) == Entries()
      ensures |rows| == |sgpaList| + ExtraRows(format)
      ensures rows == TableFor(format, Entries())
    {
      rows := TableFor(format, Entries());
      EveryFormatCarriesTheEntries(format, Entries());
    }
  }

  /** Adding a semester and then removing the last one restores both lists
      exactly. */
  method AddThenRemoveLast(s: SessionState, grade: real, credit: real)
    requires s.Valid()
    requires 0.0 <= grade <= MaxGrade && 0.0 <= credit
    modifies s
    ensures s.Valid()
    ensures s.sgpaList == old(s.sgpaList) && s.creditsList == old(s.creditsList)
  {
    s.Add(grade, credit);
    s.RemoveLast();
  }
}
