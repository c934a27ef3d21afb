/** The list of known fingerprints and the in-place removal of those that were forgotten. */
module OtrFinger {
  import opened Options
  import opened Sequences

  datatype Finger = Finger(fingerprint: string, purge: bool)

  /** What `rowCountChanged` tells the tree: `removed` rows are gone from row `at` on. */
  datatype Notice = Notice(at: nat, removed: nat)

  // ----- what removal means

  /** The elements that are kept, in order. */
  function Survivors<T>(rows: seq<T>, kept: seq<bool>): (s: seq<T>)
    requires |rows| == |kept|
    ensures |s| <= |rows|
  {
    if rows == [] then []
    else (if kept[0] then [rows[0]] else []) + Survivors(rows[1..], kept[1..])
  }

  /** A mirror of the rows after one notice; a notice that does not fit it is ignored. */
  function Removed<T>(rows: seq<T>, n: Notice): seq<T> {
    if n.at + n.removed <= |rows| then rows[..n.at] + rows[n.at + n.removed..] else rows
  }

  function Replay<T>(rows: seq<T>, notices: seq<Notice>): seq<T>
    decreases |notices|
  {
    if notices == [] then rows else Replay(Removed(rows, notices[0]), notices[1..])
  }

  /** The length of the leading stretch of removed elements. */
  function Gap(kept: seq<bool>): (n: nat)
    ensures n <= |kept| && (forall i :: 0 <= i < n ==> !kept[i]) && (n < |kept| ==> kept[n])
  {
    if kept == [] || kept[0] then 0 else 1 + Gap(kept[1..])
  }

  /** One notice for each maximal stretch of removed elements; `at` elements have been kept before. */
  function Notices(kept: seq<bool>, at: nat): seq<Notice>
    decreases |kept|
  {
    if kept == [] then []
    else if kept[0] then Notices(kept[1..], at + 1)
    else [Notice(at, Gap(kept))] + Notices(kept[Gap(kept)..], at)
  }

  /** How many of the first `i` elements are kept. */
  function Rank(kept: seq<bool>, i: nat): (n: nat)
    requires i <= |kept|
    ensures n <= i
  {
    if i == 0 then 0 else Rank(kept, i - 1) + (if kept[i - 1] then 1 else 0)
  }

  lemma {:induction false} SurvivorsConcat<T>(a: seq<T>, b: seq<T>, ka: seq<bool>, kb: seq<bool>)
    requires |a| == |ka| && |b| == |kb|
    ensures Survivors(a + b, ka + kb) == Survivors(a, ka) + Survivors(b, kb)
  {
    if a == [] {
      Empty(b);
      Empty(kb);
      Empty(Survivors(b, kb));
    } else {
      assert (a + b)[1..] == a[1..] + b && (ka + kb)[1..] == ka[1..] + kb;
      SurvivorsConcat(a[1..], b, ka[1..], kb);
      Assoc(if ka[0] then [a[0]] else [], Survivors(a[1..], ka[1..]), Survivors(b, kb));
    }
  }

  lemma {:induction false} SurvivorsUniform<T>(a: seq<T>, ka: seq<bool>)
    requires |a| == |ka|
    ensures (forall i :: 0 <= i < |ka| ==> ka[i]) ==> Survivors(a, ka) == a
    ensures (forall i :: 0 <= i < |ka| ==> !ka[i]) ==> Survivors(a, ka) == []
  {
    if a != [] {
      SurvivorsUniform(a[1..], ka[1..]);
    }
  }

  /** One more element, kept or not. */
  lemma SurvivorsNext<T>(rows: seq<T>, kept: seq<bool>, p: nat)
    requires |rows| == |kept| && p < |rows|
    ensures Survivors(rows[..p + 1], kept[..p + 1])
         == Survivors(rows[..p], kept[..p]) + (if kept[p] then [rows[p]] else [])
  {
    SurvivorsConcat(rows[..p], [rows[p]], kept[..p], [kept[p]]);
    assert rows[..p + 1] == rows[..p] + [rows[p]] && kept[..p + 1] == kept[..p] + [kept[p]];
    assert [rows[p]][1..] == [];
    Empty(if kept[p] then [rows[p]] else []);
  }

  /** A stretch of elements that are not kept adds nothing. */
  lemma {:induction false} SurvivorsSkip<T>(rows: seq<T>, kept: seq<bool>, p: nat, n: nat)
    requires |rows| == |kept| && p + n <= |rows| && forall i :: p <= i < p + n ==> !kept[i]
    ensures Survivors(rows[..p + n], kept[..p + n]) == Survivors(rows[..p], kept[..p])
    decreases n
  {
    if n != 0 {
      SurvivorsSkip(rows, kept, p, n - 1);
      SurvivorsNext(rows, kept, p + n - 1);
      Empty(Survivors(rows[..p], kept[..p]));
    }
  }

  /** A kept element is found behind exactly the kept ones before it, and there is nothing else. */
  lemma {:induction false} SurvivorsByRank<T>(rows: seq<T>, kept: seq<bool>, p: nat)
    requires |rows| == |kept| && p <= |rows|
    ensures |Survivors(rows[..p], kept[..p])| == Rank(kept, p)
    ensures forall i :: 0 <= i < p && kept[i] ==>
              Rank(kept, i) < Rank(kept, p) && Survivors(rows[..p], kept[..p])[Rank(kept, i)] == rows[i]
    decreases p
  {
    hide Survivors;
    if p == 0 {
      SurvivorsUniform(rows[..p], kept[..p]);
    } else {
      SurvivorsByRank(rows, kept, p - 1);
      SurvivorsNext(rows, kept, p - 1);
    }
  }

  // ----- a mirror of the rows

  /** The rows once the first `p` have been dealt with. */
  function Partly<T>(rows: seq<T>, kept: seq<bool>, p: nat): seq<T>
    requires |rows| == |kept| && p <= |rows|
  {
    Survivors(rows[..p], kept[..p]) + rows[p..]
  }

  lemma PartlyEnds<T>(rows: seq<T>, kept: seq<bool>)
    requires |rows| == |kept|
    ensures Partly(rows, kept, 0) == rows && Partly(rows, kept, |rows|) == Survivors(rows, kept)
  {
    assert rows[..|rows|] == rows && kept[..|kept|] == kept && rows[..0] == [] && rows[|rows|..] == [];
    Empty(rows);
    Empty(Survivors(rows, kept));
  }

  lemma PartlyKeep<T>(rows: seq<T>, kept: seq<bool>, p: nat)
    requires |rows| == |kept| && p < |rows| && kept[p]
    ensures Partly(rows, kept, p + 1) == Partly(rows, kept, p)
    ensures |Survivors(rows[..p + 1], kept[..p + 1])| == |Survivors(rows[..p], kept[..p])| + 1
  {
    SurvivorsNext(rows, kept, p);
    assert rows[p..] == [rows[p]] + rows[p + 1..];
    Assoc(Survivors(rows[..p], kept[..p]), [rows[p]], rows[p + 1..]);
  }

  lemma PartlySkip<T>(rows: seq<T>, kept: seq<bool>, p: nat, n: nat)
    requires |rows| == |kept| && p + n <= |rows| && forall i :: p <= i < p + n ==> !kept[i]
    ensures Partly(rows, kept, p + n) == Removed(Partly(rows, kept, p), Notice(|Survivors(rows[..p], kept[..p])|, n))
    ensures |Survivors(rows[..p + n], kept[..p + n])| == |Survivors(rows[..p], kept[..p])|
  {
    SurvivorsSkip(rows, kept, p, n);
  }

  lemma {:induction false} ReplayFrom<T>(rows: seq<T>, kept: seq<bool>, p: nat)
    requires |rows| == |kept| && p <= |rows|
    ensures Replay(Partly(rows, kept, p), Notices(kept[p..], |Survivors(rows[..p], kept[..p])|)) == Survivors(rows, kept)
    decreases |rows| - p
  {
    hide Survivors, Partly, Removed;
    var at := |Survivors(rows[..p], kept[..p])|;
    if p == |rows| {
      PartlyEnds(rows, kept);
    } else if kept[p] {
      PartlyKeep(rows, kept, p);
      assert kept[p..][1..] == kept[p + 1..];
      ReplayFrom(rows, kept, p + 1);
    } else {
      var n := Gap(kept[p..]);
      PartlySkip(rows, kept, p, n);
      assert kept[p..][n..] == kept[p + n..];
      ReplayFrom(rows, kept, p + n);
    }
  }

  /** Whatever the rows are, replaying the notices on a mirror of them leaves exactly those that are kept. */
  lemma ReplayIsSurvivors<T>(rows: seq<T>, kept: seq<bool>)
    requires |rows| == |kept|
    ensures Replay(rows, Notices(kept, 0)) == Survivors(rows, kept)
  {
    hide Notices, Replay;
    ReplayFrom(rows, kept, 0);
    PartlyEnds(rows, kept);
    assert kept[0..] == kept;
  }

  /** Each notice is about some rows, and kept rows lie between any two: no stretch is told in parts. */
  lemma {:induction false} NoticesApart(kept: seq<bool>, at: nat)
    ensures forall i :: 0 <= i < |Notices(kept, at)| ==> Notices(kept, at)[i].removed > 0 && Notices(kept, at)[i].at >= at
    ensures forall i, j :: 0 <= i < j < |Notices(kept, at)| ==> Notices(kept, at)[i].at < Notices(kept, at)[j].at
    decreases |kept|
  {
    if kept != [] {
      var rest := if kept[0] then kept[1..] else kept[Gap(kept)..];
      if kept[0] {
        NoticesApart(rest, at + 1);
      } else if rest != [] {
        assert Notices(rest, at) == Notices(rest[1..], at + 1);
        NoticesApart(rest[1..], at + 1);
      }
    }
  }

  // ----- the dialog

  predicate NoNull(fingers: seq<Option<Finger>>) {
    forall i :: 0 <= i < |fingers| ==> fingers[i].Some?
  }

  /** Between two actions no entry is null or marked. */
  predicate Clean(fingers: seq<Option<Finger>>) {
    forall i :: 0 <= i < |fingers| ==> fingers[i].Some? && !fingers[i].value.purge
  }

  /** The selected entries marked for purging. */
  function Marked(fingers: seq<Option<Finger>>, selected: seq<nat>): (s: seq<Option<Finger>>)
    requires NoNull(fingers)
    ensures |s| == |fingers|
    ensures forall i :: 0 <= i < |s| ==>
              s[i] == Some(Finger(fingers[i].value.fingerprint, fingers[i].value.purge || i in selected))
  {
    seq(|fingers|, i requires 0 <= i < |fingers| =>
      Some(Finger(fingers[i].value.fingerprint, fingers[i].value.purge || i in selected)))
  }

  function Cleared(fingers: seq<Option<Finger>>): (s: seq<Option<Finger>>)
    requires NoNull(fingers)
    ensures |s| == |fingers|
    ensures forall i :: 0 <= i < |s| ==> s[i] == Some(Finger(fingers[i].value.fingerprint, false))
  {
    seq(|fingers|, i requires 0 <= i < |fingers| => Some(Finger(fingers[i].value.fingerprint, false)))
  }

  /** The entries that are not forgotten: those without a mark and those whose fingerprint is in use. */
  function Spared(fingers: seq<Option<Finger>>, inUse: seq<bool>): (kept: seq<bool>)
    requires NoNull(fingers) && |inUse| == |fingers|
    ensures |kept| == |fingers|
    ensures forall i :: 0 <= i < |kept| ==> (kept[i] <==> !fingers[i].value.purge || inUse[i])
  {
    seq(|fingers|, i requires 0 <= i < |fingers| => !fingers[i].value.purge || inUse[i])
  }

  /** The entries that are not selected, and those that are in use. */
  function Unaffected(selected: seq<nat>, inUse: seq<bool>): (kept: seq<bool>)
    ensures |kept| == |inUse|
    ensures forall i :: 0 <= i < |kept| ==> (kept[i] <==> i !in selected || inUse[i])
  {
    seq(|inUse|, i requires 0 <= i < |inUse| => i !in selected || inUse[i])
  }

  /** The numbers of the first `n` rows. */
  function Rows(n: nat): (rows: seq<nat>)
    ensures |rows| == n && forall i :: i in rows <==> 0 <= i < n
  {
    if n == 0 then [] else Rows(n - 1) + [n - 1]
  }

  /** Marking clean entries and clearing them again changes nothing; what is spared is what is not selected or in use. */
  lemma MarkedCleared(fingers: seq<Option<Finger>>, selected: seq<nat>, inUse: seq<bool>)
    requires Clean(fingers) && |inUse| == |fingers|
    ensures Cleared(Marked(fingers, selected)) == fingers
    ensures Spared(Marked(fingers, selected), inUse) == Unaffected(selected, inUse)
  {
  }

  class OtrFingerDialog {
    var gFingers: seq<Option<Finger>>
    var rowCount: int
    var removeAllDisabled: bool
    ghost var notices: seq<Notice>

    ghost predicate Inv()
      reads this
    {
      Clean(gFingers) && rowCount == |gFingers| && (removeAllDisabled <==> gFingers == [])
    }

    /** `onload`, given the fingerprints known to the account; none of them starts out marked. */
    constructor (known: seq<string>)
      ensures Inv() && |gFingers| == |known|
      ensures forall i :: 0 <= i < |known| ==> gFingers[i] == Some(Finger(known[i], false))
      ensures notices == []
    {
      gFingers := seq(|known|, i requires 0 <= i < |known| => Some(Finger(known[i], false)));
      rowCount := |known|;
      removeAllDisabled := |known| == 0;
      notices := [];
    }

    /** `inUse` says whose fingerprints secure an encrypted conversation; they are not forgotten. */
    method Remove(selections: seq<nat>, inUse: seq<bool>) returns (alerted: bool)
      requires Inv() && |inUse| == |gFingers| && forall i :: 0 <= i < |selections| ==> selections[i] < |gFingers|
      modifies this
      ensures Inv() && gFingers == Survivors(old(gFingers), Unaffected(selections, inUse))
      ensures forall i :: 0 <= i < |inUse| ==> (Unaffected(selections, inUse)[i] <==> i !in selections || inUse[i])
      ensures notices == old(notices) + Notices(Unaffected(selections, inUse), 0)
      ensures alerted <==> exists i :: 0 <= i < |inUse| && i in selections && inUse[i]
    {
      var j := 0;
      while j < |selections|
        invariant j <= |selections| && |gFingers| == |inUse|
        invariant gFingers == Marked(old(gFingers), selections[..j])
        invariant rowCount == old(rowCount) && notices == old(notices)
      {
        var sel := selections[j];
        gFingers := gFingers[sel := Some(gFingers[sel].value.(purge := true))];
        j := j + 1;
      }
      assert selections[..j] == selections;
      MarkedCleared(old(gFingers), selections, inUse);
      alerted := CommonRemove(inUse);
    }

    method RemoveAll(confirmed: bool, inUse: seq<bool>) returns (alerted: bool)
      requires Inv() && |inUse| == |gFingers|
      modifies this
      ensures Inv()
      ensures if !confirmed then gFingers == old(gFingers) && notices == old(notices) && !alerted
              else gFingers == Survivors(old(gFingers), inUse) && notices == old(notices) + Notices(inUse, 0)
                   && (alerted <==> exists i :: 0 <= i < |inUse| && inUse[i])
    {
      if !confirmed {
        return false;
      }
      var j := 0;
      while j < |gFingers|
        invariant j <= |gFingers| == |inUse|
        invariant gFingers == Marked(old(gFingers), Rows(j))
        invariant rowCount == old(rowCount) && notices == old(notices)
      {
        gFingers := gFingers[j := Some(gFingers[j].value.(purge := true))];
        j := j + 1;
      }
      MarkedCleared(old(gFingers), Rows(j), inUse);
      assert Unaffected(Rows(j), inUse) == inUse;
      alerted := CommonRemove(inUse);
    }

    /** `OTR.forgetFingerprints`: nulls what is marked and not in use, and clears every mark. */
    method ForgetFingerprints(inUse: seq<bool>) returns (result: bool)
      requires NoNull(gFingers) && |inUse| == |gFingers|
      modifies `gFingers
      ensures |gFingers| == |inUse|
      ensures forall i :: 0 <= i < |inUse| ==>
                var was := old(gFingers)[i].value;
                gFingers[i] == if was.purge && !inUse[i] then None else Some(Finger(was.fingerprint, false))
      ensures result <==> forall i :: 0 <= i < |inUse| ==> !(old(gFingers)[i].value.purge && inUse[i])
    {
      result := true;
      var i := 0;
      while i < |gFingers|
        invariant i <= |gFingers| == |inUse|
        invariant forall j :: i <= j < |inUse| ==> gFingers[j] == old(gFingers)[j]
        invariant forall j :: 0 <= j < i ==>
                    gFingers[j] == if Spared(old(gFingers), inUse)[j] then Cleared(old(gFingers))[j] else None
        invariant result <==> forall j :: 0 <= j < i ==> !(old(gFingers)[j].value.purge && inUse[j])
      {
        var obj := gFingers[i].value;
        if obj.purge {
          gFingers := gFingers[i := Some(obj.(purge := false))];
          if inUse[i] {
            result := false;
          } else {
            gFingers := gFingers[i := None];
          }
        }
        i := i + 1;
      }
    }

    /** Drops the entries that were forgotten, telling the tree about each stretch of them. */
    method CommonRemove(inUse: seq<bool>) returns (alerted: bool)
      requires NoNull(gFingers) && rowCount == |gFingers| == |inUse|
      modifies this
      ensures Inv()
      ensures gFingers == Survivors(Cleared(old(gFingers)), Spared(old(gFingers), inUse))
      ensures notices == old(notices) + Notices(Spared(old(gFingers), inUse), 0)
      ensures alerted <==> exists i :: 0 <= i < |inUse| && old(gFingers)[i].value.purge && inUse[i]
    {
      hide Survivors, Notices;
      ghost var fingers, kept := Cleared(gFingers), Spared(gFingers, inUse);
      var removalComplete := ForgetFingerprints(inUse);
      SurvivorsForgotten(fingers, gFingers, kept);
      DropNulls(kept);
      alerted := !removalComplete;
      removeAllDisabled := |gFingers| == 0;
    }

    /** The loops of `CommonRemove`: splices out each stretch of nulls and tells the tree about it. */
    method DropNulls(ghost kept: seq<bool>)
      requires rowCount == |gFingers| == |kept|
      requires forall i :: 0 <= i < |kept| ==> (gFingers[i].None? <==> !kept[i])
      modifies `gFingers, `rowCount, `notices
      ensures gFingers == Survivors(old(gFingers), kept) && rowCount == |gFingers|
      ensures notices == old(notices) + Notices(kept, 0)
    {
      hide Survivors, Notices, Partly, Gap, Removed;
      ghost var rows := gFingers;
      ghost var p, at := 0, 0;
      PartlyEnds(rows, kept);
      assert kept[0..] == kept;
      Empty(notices);
      var j := 0;
      while j < |gFingers|
        invariant 0 <= p <= |rows| && at == |Survivors(rows[..p], kept[..p])|
        invariant gFingers == Partly(rows, kept, p) && rowCount == |gFingers|
        invariant j == at || (p == |rows| && j == at + 1)
        invariant old(notices) + Notices(kept, 0) == notices + Notices(kept[p..], at)
        decreases |gFingers| - j
      {
        PartlyAt(rows, kept, p);
        if gFingers[j].None? {
          var k := j;
          while k < |gFingers| && gFingers[k].None?
            invariant j <= k <= |gFingers|
            invariant forall i :: j <= i < k ==> gFingers[i].None?
          {
            k := k + 1;
          }
          StretchRemoved(rows, kept, p, gFingers, at, k - j, notices);
          gFingers := gFingers[..j] + gFingers[k..];
          rowCount := rowCount - (k - j);
          notices := notices + [Notice(j, k - j)];
          p := p + (k - j);
        }
        if p < |rows| {
          PartlyKeep(rows, kept, p);
          NoticesKept(kept, p, at);
          p, at := p + 1, at + 1;
        }
        j := j + 1;
      }
      PartlyAt(rows, kept, p);
      NoticesEnd(kept, at);
      Empty(notices);
    }
  }

  /** Among the survivors it makes no difference that the others have become null. */
  lemma {:induction false} SurvivorsForgotten(fingers: seq<Option<Finger>>, rows: seq<Option<Finger>>, kept: seq<bool>)
    requires |fingers| == |rows| == |kept| && Clean(fingers)
    requires forall i :: 0 <= i < |kept| ==> rows[i] == if kept[i] then fingers[i] else None
    ensures Survivors(rows, kept) == Survivors(fingers, kept)
    ensures Clean(Survivors(fingers, kept))
  {
    if fingers != [] {
      SurvivorsForgotten(fingers[1..], rows[1..], kept[1..]);
    }
  }

  lemma PartlyAt<T>(rows: seq<T>, kept: seq<bool>, p: nat)
    requires |rows| == |kept| && p <= |rows|
    ensures var at := |Survivors(rows[..p], kept[..p])|;
            && |Partly(rows, kept, p)| == at + |rows| - p
            && forall i :: at <= i < at + |rows| - p ==> Partly(rows, kept, p)[i] == rows[i - at + p]
  {
    hide Survivors;
  }

  lemma GapIs<T>(rows: seq<Option<T>>, kept: seq<bool>, p: nat, now: seq<Option<T>>, at: nat, n: nat)
    requires |rows| == |kept| && p <= |rows| && |now| == at + |rows| - p
    requires forall i :: 0 <= i < |rows| ==> (rows[i].None? <==> !kept[i])
    requires forall i :: at <= i < |now| ==> now[i] == rows[i - at + p]
    requires at + n <= |now| && forall i :: at <= i < at + n ==> now[i].None?
    requires at + n < |now| ==> now[at + n].Some?
    ensures Gap(kept[p..]) == n && forall i :: p <= i < p + n ==> !kept[i]
    ensures p + n < |rows| ==> kept[p + n]
  {
    hide Gap;
    forall i | p <= i < p + n ensures !kept[i] {
      assert now[i - p + at] == rows[i];
    }
    if p + n < |rows| {
      assert now[at + n] == rows[p + n];
    }
  }

  /** A maximal stretch of nulls: what its removal does to the list and to the notices still to come. */
  lemma StretchRemoved<T>(rows: seq<Option<T>>, kept: seq<bool>, p: nat, now: seq<Option<T>>, at: nat, n: nat,
                          told: seq<Notice>)
    requires |rows| == |kept| && p <= |rows| && now == Partly(rows, kept, p) && at == |Survivors(rows[..p], kept[..p])|
    requires forall i :: 0 <= i < |rows| ==> (rows[i].None? <==> !kept[i])
    requires 0 < n && at + n <= |now| && forall i :: at <= i < at + n ==> now[i].None?
    requires at + n < |now| ==> now[at + n].Some?
    ensures p + n <= |rows| && now[..at] + now[at + n..] == Partly(rows, kept, p + n)
    ensures |Survivors(rows[..p + n], kept[..p + n])| == at && (p + n < |rows| ==> kept[p + n])
    ensures told + Notices(kept[p..], at) == told + [Notice(at, n)] + Notices(kept[p + n..], at)
  {
    hide Survivors, Notices, Partly, Gap;
    PartlyAt(rows, kept, p);
    GapIs(rows, kept, p, now, at, n);
    PartlySkip(rows, kept, p, n);
    NoticesGap(kept, p, at, n);
    Assoc(told, [Notice(at, n)], Notices(kept[p + n..], at));
  }

  lemma NoticesGap(kept: seq<bool>, p: nat, at: nat, n: nat)
    requires p < |kept| && !kept[p] && Gap(kept[p..]) == n
    ensures Notices(kept[p..], at) == [Notice(at, n)] + Notices(kept[p + n..], at)
  {
    hide Gap;
    assert kept[p..][n..] == kept[p + n..];
  }

  lemma NoticesKept(kept: seq<bool>, p: nat, at: nat)
    requires p < |kept| && kept[p]
    ensures Notices(kept[p..], at) == Notices(kept[p + 1..], at + 1)
  {
    hide Gap;
    assert kept[p..][1..] == kept[p + 1..];
  }

  lemma NoticesEnd(kept: seq<bool>, at: nat)
    ensures Notices(kept[|kept|..], at) == []
  {
  }
}
