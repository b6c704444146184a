/** `get_today_appointments`: visit every appointment found on the agenda
    and keep the records that extraction accepts. */
module Collection {
  import opened Wrappers
  import opened Extraction

  /** One appointment element of the agenda: whether clicking it succeeds,
      the overlay it opens, and whether closing the overlay succeeds. */
  datatype Candidate = Candidate(clickSucceeds: bool, modal: Modal, closeSucceeds: bool)

  /** What visiting one candidate gives: the click raised, the extraction
      rejected the overlay, or a record was accepted. */
  datatype Outcome = Failed | Rejected | Accepted(rec: Record)

  /** The outcome of one visit. A failed close comes after the append and
      does not change it. */
  function Visit(c: Candidate, today: string): (o: Outcome)
    ensures o.Accepted? <==> c.clickSucceeds && Extract(c.modal, today).Some?
    ensures o.Accepted? ==> o.rec == Extract(c.modal, today).value
  {
    if !c.clickSucceeds then Failed
    else match Extract(c.modal, today)
      case None => Rejected
      case Some(r) => Accepted(r)
  }

  /** The records of the accepted outcomes, in order. */
  function Collect(os: seq<Outcome>): seq<Record>
    decreases |os|
  {
    if os == [] then []
    else
      var last := os[|os| - 1];
      Collect(os[..|os| - 1]) + (if last.Accepted? then [last.rec] else [])
  }

  /** The outcomes of visiting the candidates in order. */
  function Outcomes(cs: seq<Candidate>, today: string): (os: seq<Outcome>)
    ensures |os| == |cs|
    ensures forall i :: 0 <= i < |cs| ==> os[i] == Visit(cs[i], today)
  {
    seq(|cs|, i requires 0 <= i < |cs| => Visit(cs[i], today))
  }

  /** The loop over the agenda elements: a candidate whose click raises is
      skipped, an accepted record is appended, and a close that raises after
      the append leaves the record in place. */
  method GetTodayAppointments(cands: seq<Candidate>, today: string) returns (rdvs: seq<Record>)
    ensures rdvs == Collect(Outcomes(cands, today))
  {
    rdvs := [];
    var i := 0;
    while i < |cands|
      invariant 0 <= i <= |cands|
      invariant rdvs == Collect(Outcomes(cands[..i], today))
    {
      var c := cands[i];
      CollectStep(cands, i, today);
      if !c.clickSucceeds {
        // The click raised: the exception handler moves on to the next one.
        i := i + 1;
        continue;
      }
      var rdvData := ExtractRdvData(c.modal, today);
      if rdvData.Some? {
        rdvs := rdvs + [rdvData.value];
      }
      if !c.closeSucceeds {
        // Closing raised after the append: the handler moves on.
        i := i + 1;
        continue;
      }
      i := i + 1;
    }
    assert cands[..|cands|] == cands;
  }

  /** One more candidate adds its record, if it yields one, to those of the
      candidates before it. */
  lemma CollectStep(cs: seq<Candidate>, i: int, today: string)
    requires 0 <= i < |cs|
    ensures var v := Visit(cs[i], today);
      Collect(Outcomes(cs[..i + 1], today))
        == Collect(Outcomes(cs[..i], today)) + (if v.Accepted? then [v.rec] else [])
  {
    var os := Outcomes(cs[..i + 1], today);
    assert cs[..i + 1][..i] == cs[..i];
    assert os[..i] == Outcomes(cs[..i], today);
    assert os[i] == Visit(cs[i], today);
  }

  /** Collecting over two stretches of outcomes collects each in turn. */
  lemma {:induction false} CollectAppend(a: seq<Outcome>, b: seq<Outcome>)
    ensures Collect(a + b) == Collect(a) + Collect(b)
    decreases |b|
  {
    if b == [] {
      assert a + b == a;
    } else {
      var b' := b[..|b| - 1];
      assert (a + b)[..|a + b| - 1] == a + b';
      CollectAppend(a, b');
    }
  }

  /** A record is collected exactly when some outcome accepted it. */
  lemma {:induction false} CollectMembership(os: seq<Outcome>, r: Record)
    ensures r in Collect(os) <==> Accepted(r) in os
    decreases |os|
  {
    if os != [] {
      var init := os[..|os| - 1];
      CollectMembership(init, r);
      assert os == init + [os[|os| - 1]];
    }
  }

  /** At most one record per outcome. */
  lemma {:induction false} CollectLength(os: seq<Outcome>)
    ensures |Collect(os)| <= |os|
    decreases |os|
  {
    if os != [] {
      CollectLength(os[..|os| - 1]);
    }
  }

  /** When every outcome is an acceptance, the records are exactly theirs, one
      per outcome and in the same order. */
  lemma {:induction false} AllAccepted(os: seq<Outcome>)
    requires forall i :: 0 <= i < |os| ==> os[i].Accepted?
    ensures |Collect(os)| == |os|
    ensures forall i :: 0 <= i < |os| ==> Collect(os)[i] == os[i].rec
    decreases |os|
  {
    if os != [] {
      AllAccepted(os[..|os| - 1]);
    }
  }

  /** When no outcome is an acceptance, nothing is collected. */
  lemma {:induction false} NoneAccepted(os: seq<Outcome>)
    requires forall i :: 0 <= i < |os| ==> !os[i].Accepted?
    ensures Collect(os) == []
    decreases |os|
  {
    if os != [] {
      NoneAccepted(os[..|os| - 1]);
    }
  }

  /** The outcomes of a stretch of candidates are those of its parts. */
  lemma OutcomesAppend(a: seq<Candidate>, b: seq<Candidate>, today: string)
    ensures Outcomes(a + b, today) == Outcomes(a, today) + Outcomes(b, today)
  {
    var l, r, o := Outcomes(a, today), Outcomes(b, today), Outcomes(a + b, today);
    forall i | 0 <= i < |a|
      ensures o[i] == l[i]
    {
      assert (a + b)[i] == a[i];
    }
    forall j | 0 <= j < |b|
      ensures o[|a| + j] == r[j]
    {
      assert (a + b)[|a| + j] == b[j];
    }
    assert o == l + r by {
      forall i | 0 <= i < |o|
        ensures o[i] == (l + r)[i]
      {
        if i >= |a| {
          assert o[|a| + (i - |a|)] == r[i - |a|];
        }
      }
    }
  }

  /** A candidate that fails or is rejected leaves the collected records
      exactly as they would be without it. */
  lemma SkippedCandidate(cs: seq<Candidate>, k: int, today: string)
    requires 0 <= k < |cs| && !Visit(cs[k], today).Accepted?
    ensures Collect(Outcomes(cs, today)) == Collect(Outcomes(cs[..k] + cs[k + 1..], today))
  {
    var before, after := cs[..k], cs[k + 1..];
    var ob, ok, oa := Outcomes(before, today), Outcomes([cs[k]], today), Outcomes(after, today);
    assert Outcomes(cs, today) == ob + ok + oa by {
      assert cs == before + [cs[k]] + after;
      OutcomesAppend(before + [cs[k]], after, today);
      OutcomesAppend(before, [cs[k]], today);
    }
    assert Outcomes(cs[..k] + cs[k + 1..], today) == ob + oa by {
      OutcomesAppend(before, after, today);
    }
    assert Collect(ok) == [] by {
      assert ok[..0] == [];
    }
    CollectAppend(ob + ok, oa);
    CollectAppend(ob, ok);
    CollectAppend(ob, oa);
    assert Collect(ob) + [] == Collect(ob);
  }

  /** Every collected record was accepted by extraction on the agenda's day:
      it carries that day, the status "Honoré", and a client or a service. */
  lemma CollectedRecords(cs: seq<Candidate>, today: string, r: Record)
    requires r in Collect(Outcomes(cs, today))
    ensures r.date == today && r.statut == Honoured && (r.client != "" || r.prestation != "")
    ensures exists i :: 0 <= i < |cs| && cs[i].clickSucceeds && Extract(cs[i].modal, today) == Some(r)
  {
    var os := Outcomes(cs, today);
    CollectMembership(os, r);
    var i :| 0 <= i < |os| && os[i] == Accepted(r);
    assert Visit(cs[i], today) == Accepted(r);
    AcceptedShape(cs[i].modal, today);
  }
}
