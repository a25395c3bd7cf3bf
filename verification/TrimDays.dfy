/**
 * trimDays deletes exactly the days with the smallest names, as many as there are above the
 * limit; the sort in it changes nothing, because member names come in ascending order.
 */
module TrimDaysTheorems {
  import opened Bytes
  import opened Values
  import opened ReaderSpec
  import opened Truncation
  import opened Firebase
  import opened FirebaseTheorems

  lemma {:induction false} SortIsIdentity(names: seq<Bytes>)
    requires StrictlyAscending(names)
    ensures SortNames(names) == names
  {
    hide KeyLess, InsertName;
    if names != [] {
      SortIsIdentity(names[1..]);
      assert names == [names[0]] + names[1..];
      InsertFirst(names[0], names[1..]);
    }
  }

  lemma InsertFirst(x: Bytes, names: seq<Bytes>)
    requires StrictlyAscending([x] + names)
    ensures InsertName(x, names) == [x] + names
  {
    hide KeyLess;
    if names != [] {
      var all := [x] + names;
      assert KeyLess(all[0], all[1]);
    }
  }

  lemma NamesAscend(cfg: Config, text: Bytes)
    ensures StrictlyAscending(NamesIn(cfg, text))
  {
    hide Parse, Listed, KeyLess;
    if NamesIn(cfg, text) != [] {
      MemberNamesAreListed(cfg, text);
    }
  }

  // ---------------------------------------------------------------- what is requested

  /** Every database request from `from` on deletes one of the named days. */
  ghost predicate OnlyDeletes(sent: seq<Request>, from: nat, root: Bytes, names: seq<Bytes>) {
    forall k | from <= k < |sent| && sent[k].target.Database? ::
      sent[k].verb == DELETE && exists i :: 0 <= i < |names| && sent[k].target.path == Child(root, names[i])
  }

  /** Every named day was requested from `from` on. */
  ghost predicate DeletesAll(sent: seq<Request>, from: nat, root: Bytes, names: seq<Bytes>) {
    forall i | 0 <= i < |names| ::
      exists k :: from <= k < |sent| && sent[k].verb == DELETE && sent[k].target == Database(Child(root, names[i]))
  }

  lemma DeleteSends(cfg: Config, server: Server, f: Fields, s: App, path: Bytes)
    requires s.Valid() && s.client != Missing
    ensures var s' := DeleteData(cfg, server, f, s, path).app;
            && s'.client != Missing && s.sent <= s'.sent
            && |s'.sent| > |s.sent| && s'.sent[|s.sent|] == Request(DELETE, Database(path), s.auth, [])
  {
    hide PerformRequest, ForceRefreshAuth;
    var first := PerformRequest(cfg, server, s, Request(DELETE, Database(path), s.auth, []));
    RequestSends(cfg, server, s, Request(DELETE, Database(path), s.auth, []));
    if first.ret.status == 401 {
      RefreshKeepsClient(cfg, server, f, first.app);
      var renewed := ForceRefreshAuth(cfg, server, f, first.app).app;
      RequestSends(cfg, server, renewed, Request(DELETE, Database(path), renewed.auth, []));
    }
  }

  /** The requests of one delete go to that path, or to the services. */
  lemma DeleteTargets(cfg: Config, server: Server, f: Fields, s: App, path: Bytes)
    requires s.Valid() && Sound(cfg, server)
    ensures var s' := DeleteData(cfg, server, f, s, path).app;
            && s.sent <= s'.sent
            && forall k | |s.sent| <= k < |s'.sent| && s'.sent[k].target.Database? ::
                 s'.sent[k].verb == DELETE && s'.sent[k].target.path == path
  {
    hide WithRefresh, Sound, Schedule;
    WithRefreshSettles(cfg, server, f, s, DELETE, path, []);
    var s' := WithRefresh(cfg, server, f, s, DELETE, path, []).app;
    ScheduleTargets(s.sent, s'.sent, DELETE, path, [], s.auth, s'.auth);
  }

  lemma ScheduleTargets(before: seq<Request>, after: seq<Request>, verb: Verb, path: Bytes, body: Bytes,
                        auth: Bytes, auth': Bytes)
    requires Schedule(before, after, verb, path, body, auth, auth')
    ensures before <= after
    ensures forall k | |before| <= k < |after| && after[k].target.Database? ::
              after[k].verb == verb && after[k].target.path == path
  {
    var i: nat, j: nat :|
      && |before| <= i <= j <= |after|
      && i <= |before| + 5 && j <= i + 15 && |after| <= j + 5
      && after[..|before|] == before
      && Sends(after[|before|..i], Request(verb, Database(path), auth, body))
      && AsksServices(after[i..j])
      && Sends(after[j..], Request(verb, Database(path), auth', body));
    forall k | |before| <= k < |after|
      ensures after[k].target.Database? ==> after[k].verb == verb && after[k].target.path == path
    {
      if k < i {
        assert after[k] == after[|before|..i][k - |before|];
      } else if k < j {
        assert after[k] == after[i..j][k - i];
      } else {
        assert after[k] == after[j..][k - j];
      }
    }
  }

  lemma {:induction false} DeleteDaysTargets(cfg: Config, server: Server, f: Fields, s: App, root: Bytes,
                                             names: seq<Bytes>)
    requires s.Valid() && Sound(cfg, server)
    ensures var s' := DeleteDays(cfg, server, f, s, root, names);
            s.sent <= s'.sent && OnlyDeletes(s'.sent, |s.sent|, root, names)
    decreases |names|
  {
    hide DeleteData, Sound, Child;
    if names != [] {
      var n := |names| - 1;
      var m := DeleteDays(cfg, server, f, s, root, names[..n]);
      DeleteDaysTargets(cfg, server, f, s, root, names[..n]);
      DeleteTargets(cfg, server, f, m, Child(root, names[n]));
      OneMoreTarget(m.sent, DeleteDays(cfg, server, f, s, root, names).sent, |s.sent|, root, names);
    }
  }

  lemma OneMoreTarget(before: seq<Request>, after: seq<Request>, from: nat, root: Bytes, names: seq<Bytes>)
    requires names != [] && from <= |before| && before <= after
    requires OnlyDeletes(before, from, root, names[..|names| - 1])
    requires forall k | |before| <= k < |after| && after[k].target.Database? ::
               after[k].verb == DELETE && after[k].target.path == Child(root, names[|names| - 1])
    ensures OnlyDeletes(after, from, root, names)
  {
    hide Child;
    var n := |names| - 1;
    forall k | from <= k < |after| && after[k].target.Database?
      ensures after[k].verb == DELETE && exists i :: 0 <= i < |names| && after[k].target.path == Child(root, names[i])
    {
      if k < |before| {
        assert before[k] == after[k];
        var i :| 0 <= i < n && before[k].target.path == Child(root, names[..n][i]);
        assert names[..n][i] == names[i];
      } else {
        assert after[k].target.path == Child(root, names[n]);
      }
    }
  }

  lemma {:induction false} DeleteDaysAll(cfg: Config, server: Server, f: Fields, s: App, root: Bytes, names: seq<Bytes>)
    requires s.Valid() && s.client != Missing
    ensures var s' := DeleteDays(cfg, server, f, s, root, names);
            s'.client != Missing && s.sent <= s'.sent && DeletesAll(s'.sent, |s.sent|, root, names)
    decreases |names|
  {
    hide DeleteData, Child;
    if names != [] {
      var n := |names| - 1;
      var m := DeleteDays(cfg, server, f, s, root, names[..n]);
      DeleteDaysAll(cfg, server, f, s, root, names[..n]);
      DeleteSends(cfg, server, f, m, Child(root, names[n]));
      OneMoreDelete(m.sent, DeleteDays(cfg, server, f, s, root, names).sent, |s.sent|, root, names);
    }
  }

  lemma OneMoreDelete(before: seq<Request>, after: seq<Request>, from: nat, root: Bytes, names: seq<Bytes>)
    requires names != [] && from <= |before| < |after| && before <= after
    requires DeletesAll(before, from, root, names[..|names| - 1])
    requires after[|before|].verb == DELETE && after[|before|].target == Database(Child(root, names[|names| - 1]))
    ensures DeletesAll(after, from, root, names)
  {
    hide Child;
    var n := |names| - 1;
    forall i | 0 <= i < |names|
      ensures exists k ::
                from <= k < |after| && after[k].verb == DELETE && after[k].target == Database(Child(root, names[i]))
    {
      if i < n {
        assert names[..n][i] == names[i];
        var k :| from <= k < |before| && before[k].verb == DELETE
            && before[k].target == Database(Child(root, names[..n][i]));
        assert after[k] == before[k];
      }
    }
  }

  // ---------------------------------------------------------------- the theorem

  /**
   * When the listing is received, the requests that follow it delete the first |names| - maxDays
   * of its names, all of them and nothing else; those are smaller than all the others.
   */
  lemma TrimDaysDeletesSmallest(cfg: Config, server: Server, f: Fields, s: App, root: Bytes, maxDays: nat)
    requires s.Valid() && Sound(cfg, server) && maxDays > 0
    requires PerformRequest(cfg, server, s, Request(GET_SHALLOW, Database(root), s.auth, [])).ret == Ret(true, 200)
    ensures var got := PerformRequest(cfg, server, s, Request(GET_SHALLOW, Database(root), s.auth, [])).app;
            var names := NamesIn(cfg, got.Text());
            var excess := if |names| > maxDays then |names| - maxDays else 0;
            var o := TrimDays(cfg, server, f, s, root, maxDays);
            && o.ok && got.sent <= o.app.sent
            && (forall i, j | 0 <= i < excess <= j < |names| :: KeyLess(names[i], names[j]))
            && OnlyDeletes(o.app.sent, |got.sent|, root, names[..excess])
            && (got.client != Missing ==> DeletesAll(o.app.sent, |got.sent|, root, names[..excess]))
  {
    hide PerformRequest, NamesIn, DeleteDays, KeyLess, Sound, OnlyDeletes, DeletesAll, Child, SortNames;
    var got := PerformRequest(cfg, server, s, Request(GET_SHALLOW, Database(root), s.auth, [])).app;
    var names := NamesIn(cfg, got.Text());
    NamesAscend(cfg, got.Text());
    SortIsIdentity(names);
    var excess := if |names| > maxDays then |names| - maxDays else 0;
    if excess > 0 {
      DeleteDaysTargets(cfg, server, f, Clear(got), root, names[..excess]);
      if got.client != Missing {
        DeleteDaysAll(cfg, server, f, Clear(got), root, names[..excess]);
      }
    } else {
      NothingToDelete(got.sent, root, names[..0]);
    }
  }

  lemma NothingToDelete(sent: seq<Request>, root: Bytes, names: seq<Bytes>)
    requires names == []
    ensures OnlyDeletes(sent, |sent|, root, names) && DeletesAll(sent, |sent|, root, names)
  {
  }
}
