/** A message is accepted only if its required fields stand in the input. */
module RequiredFields {
  import opened Wire
  import opened Schema
  import opened DecodeSpec
  import opened Locality
  import opened FieldSteps

  /** A field with the tag begins at the k-th byte: the loop passes over what is before it. */
  predicate BeginsAt(d: MsgDesc, st: State, s: seq<byte>, tag: nat, k: nat)
    requires Shaped(d, st.m) && k < |s|
  {
    Loop(d, st, s[..k], false).Ok? && Varint32(s[k..]).Ok? && Varint32(s[k..]).value / 8 == tag
  }

  predicate Occurs(d: MsgDesc, st: State, s: seq<byte>, tag: nat)
    requires Shaped(d, st.m)
  {
    exists k :: 0 <= k < |s| && BeginsAt(d, st, s, tag, k)
  }

  /** A field inside the first one is not a field of the message. */
  lemma BehindFirst(d: MsgDesc, st: State, s: seq<byte>, tag: nat, k: nat)
    requires Shaped(d, st.m) && Step(d, st, s).Next? && 0 < k < |s| && BeginsAt(d, st, s, tag, k)
    ensures var r := Step(d, st, s);
            var n := Used(s, r.rest);
            n <= k && BeginsAt(d, r.st, r.rest, tag, k - n)
  {
    var r, x := Step(d, st, s), s[..k];
    StepExtend(d, st, x, s[k..]);
    assert x + s[k..] == s;
    var q := Step(d, st, x);
    assert q.st == r.st && r.rest == q.rest + s[k..];
    assert r.rest[..k - Used(s, r.rest)] == q.rest && r.rest[k - Used(s, r.rest)..] == s[k..];
  }

  /** A run up to a place behind the first field goes on from that field. */
  lemma RunBehindFirst(d: MsgDesc, st: State, s: seq<byte>, k: nat)
    requires Shaped(d, st.m) && Step(d, st, s).Next? && k <= |Step(d, st, s).rest|
    ensures var r := Step(d, st, s);
            var n := Used(s, r.rest);
            && s[n + k..] == r.rest[k..]
            && Loop(d, st, s[..n + k], false) == Loop(d, r.st, r.rest[..k], false)
  {
    var r := Step(d, st, s);
    var n := Used(s, r.rest);
    StepLocal(d, st, s, r.rest[..k]);
    SplitLater(s, n, k);
    LoopStep(d, st, s[..n + k], false);
  }

  /** And what begins behind the first field does so in the message. */
  lemma BeforeRest(d: MsgDesc, st: State, s: seq<byte>, tag: nat, k: nat)
    requires Shaped(d, st.m) && Step(d, st, s).Next? && k < |Step(d, st, s).rest|
    requires BeginsAt(d, Step(d, st, s).st, Step(d, st, s).rest, tag, k)
    ensures var n := Used(s, Step(d, st, s).rest);
            n + k < |s| && BeginsAt(d, st, s, tag, n + k)
  {
    RunBehindFirst(d, st, s, k);
  }

  lemma OccursStep(d: MsgDesc, st: State, s: seq<byte>, tag: nat)
    requires Shaped(d, st.m) && Step(d, st, s).Next?
    ensures var r := Step(d, st, s);
            Occurs(d, st, s, tag) <==> Varint32(s).value / 8 == tag || Occurs(d, r.st, r.rest, tag)
  {
    var r := Step(d, st, s);
    var n := Used(s, r.rest);
    assert s[..0] == [] && s[0..] == s;
    if k: nat :| k < |s| && BeginsAt(d, st, s, tag, k) {
      if k > 0 { BehindFirst(d, st, s, tag, k); }
    }
    if Varint32(s).value / 8 == tag { assert BeginsAt(d, st, s, tag, 0); }
    if k: nat :| k < |r.rest| && BeginsAt(d, r.st, r.rest, tag, k) { BeforeRest(d, st, s, tag, k); }
  }

  /** Behind a zero tag nothing belongs to the message. */
  lemma NothingBehindZero(d: MsgDesc, st: State, s: seq<byte>, tag: nat)
    requires Shaped(d, st.m) && Step(d, st, s).ZeroTag? && tag > 0
    ensures !Occurs(d, st, s, tag)
  {
    assert s[0..] == s;
    forall k | 0 <= k < |s| ensures !BeginsAt(d, st, s, tag, k) {
      if k > 0 {
        StepExtend(d, st, s[..k], s[k..]);
        assert s[..k] + s[k..] == s;
      }
    }
  }

  lemma SeenStep(d: MsgDesc, st: State, s: seq<byte>, i: nat)
    requires ValidDesc(d) && Shaped(d, st.m) && Step(d, st, s).Next?
    requires i < |d.fields| && d.fields[i].rule.Required?
    ensures i in Step(d, st, s).st.seen <==> i in st.seen || Varint32(s).value / 8 == d.fields[i].tag
  {
    FindTagUnique(d, i);
  }

  /** The loop has seen exactly the required fields that stand in its input. */
  lemma {:induction false} SeenExactly(d: MsgDesc, st: State, s: seq<byte>, nullTerm: bool, i: nat)
    requires ValidDesc(d) && Shaped(d, st.m) && Loop(d, st, s, nullTerm).Ok?
    requires i < |d.fields| && d.fields[i].rule.Required?
    ensures i in Loop(d, st, s, nullTerm).value.seen <==> i in st.seen || Occurs(d, st, s, d.fields[i].tag)
    decreases |s|
  {
    var tag := d.fields[i].tag;
    if s == [] {
      assert !Occurs(d, st, s, tag);
    } else if Step(d, st, s).ZeroTag? {
      NothingBehindZero(d, st, s, tag);
    } else {
      var r := Step(d, st, s);
      OccursStep(d, st, s, tag);
      SeenExactly(d, r.st, r.rest, nullTerm, i);
      SeenStep(d, st, s, i);
    }
  }

  /** How many required fields stand before field i in the descriptor */
  function RequiredBelow(d: MsgDesc, i: nat): nat
    requires i <= |d.fields|
  {
    |set j | 0 <= j < i && d.fields[j].rule.Required?|
  }

  lemma {:induction false} IndexCounts(d: MsgDesc, i: nat)
    requires i <= |d.fields|
    ensures RequiredIndex(d.fields, i) == RequiredBelow(d, i)
  {
    var below := set j | 0 <= j < i && d.fields[j].rule.Required?;
    if i == 0 {
      assert below == {};
    } else {
      IndexCounts(d, i - 1);
      var before := set j | 0 <= j < i - 1 && d.fields[j].rule.Required?;
      assert below == if d.fields[i - 1].rule.Required? then before + {i - 1} else before;
    }
  }

  /** pb_decode accepts its input exactly if the loop over the fields gets to the end and each of
      the first 64 required fields stands in it; the others may be missing. */
  lemma AcceptedExactly(d: MsgDesc, m: Msg, s: seq<byte>, nullTerm: bool)
    requires ValidDesc(d) && Shaped(d, m)
    ensures var st := State(m, {});
            DecodeInner(d, m, s, nullTerm).Ok?
            <==> && Loop(d, st, s, nullTerm).Ok?
                 && forall i :: 0 <= i < |d.fields| && d.fields[i].rule.Required? && RequiredBelow(d, i) < 64
                      ==> Occurs(d, st, s, d.fields[i].tag)
    ensures var r, run := DecodeInner(d, m, s, nullTerm), Loop(d, State(m, {}), s, nullTerm);
            r.Ok? ==> r == Ok(run.value.m, run.rest)
  {
    var st := State(m, {});
    if Loop(d, st, s, nullTerm).Ok? {
      forall i | 0 <= i < |d.fields| && d.fields[i].rule.Required?
        ensures Tracked(d, i) <==> RequiredBelow(d, i) < 64
        ensures i in Loop(d, st, s, nullTerm).value.seen <==> Occurs(d, st, s, d.fields[i].tag)
      {
        IndexCounts(d, i);
        SeenExactly(d, st, s, nullTerm, i);
      }
    }
  }

  /** One of the required fields is the first. */
  lemma {:induction false} FirstRequired(d: MsgDesc, i: nat)
    requires i < |d.fields| && d.fields[i].rule.Required?
    ensures exists j :: 0 <= j < |d.fields| && d.fields[j].rule.Required? && RequiredBelow(d, j) < 64
  {
    IndexCounts(d, i);
    if j: nat :| j < i && d.fields[j].rule.Required? {
      FirstRequired(d, j);
    } else {
      assert (set j | 0 <= j < i && d.fields[j].rule.Required?) == {};
      assert RequiredBelow(d, i) == 0;
    }
  }

  /** So empty input is accepted only by a message type without required fields. */
  lemma NothingMissing(d: MsgDesc, m: Msg)
    requires ValidDesc(d) && Shaped(d, m)
    ensures DecodeInto(d, m, [])
            == if exists i :: 0 <= i < |d.fields| && d.fields[i].rule.Required? then None else Some(m)
  {
    AcceptedExactly(d, m, [], false);
    if i :| 0 <= i < |d.fields| && d.fields[i].rule.Required? { FirstRequired(d, i); }
  }
}
