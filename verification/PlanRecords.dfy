/** Completeness of the backfill: which audit rows give rise to an event, and what it says. */
module PlanRecords {
  import opened Php
  import opened PlanHistory

  /* ----- what the rows mean, in words of their own ----- */

  /** `w` is spelt in `e` from offset `k` on, in capitals or not. */
  predicate SpeltAt(e: string, w: string, k: nat) {
    k + |w| <= |e| && forall j :: 0 <= j < |w| ==> e[k + j] == w[j] || e[k + j] as int + 32 == w[j] as int
  }

  predicate Spells(e: string, w: string) {
    exists k :: 0 <= k <= |e| && SpeltAt(e, w, k)
  }

  predicate SaysCancelled(e: string) {
    Spells(e, "cancel") || Spells(e, "expired") || Spells(e, "refund")
  }

  /** The plan a product id is for; of two settings with one id the later counts. */
  function PlanSold(env: Products, id: string): Option<string> {
    if id == "" then None
    else if id == env.agencyAnnual then Some("agency")
    else if id == env.proAnnual then Some("pro")
    else if id == env.starterAnnual then Some("starter")
    else if id == env.enterprise then Some("enterprise")
    else if id == env.agency then Some("agency")
    else if id == env.pro then Some("pro")
    else if id == env.starter then Some("starter")
    else None
  }

  /** The plans from the lowest to the highest; everything else is below them. */
  function Standing(plan: string): nat {
    if plan == "enterprise" then 4 else if plan == "agency" then 3 else if plan == "pro" then 2
    else if plan == "starter" then 1 else 0
  }

  function NonEmpty(o: Option<string>): Option<string> {
    if o == Some("") then None else o
  }

  function Owner(r: AuditRow): Option<string> {
    if NonEmpty(r.userId).Some? then r.userId
    else if r.targetType == Some("user") then NonEmpty(r.targetId) else None
  }

  predicate Billing(r: AuditRow) {
    || r.action == "subscription_cancelled" || r.action == "webhook_plan_change"
    || r.action == "old_subscription_cancelled"
  }

  predicate IsCancelWebhook(r: AuditRow) {
    SaysCancelled(r.details.eventType.GetOr(""))
  }

  function Named(r: AuditRow, env: Products): Option<string> {
    PlanSold(env, r.details.productId.GetOr(""))
  }

  /** The one kind of row that gives no event: a webhook for the plan the user is on, and no renewal. */
  predicate Silent(r: AuditRow, current: string, env: Products) {
    && r.action == "webhook_plan_change" && !IsCancelWebhook(r)
    && Named(r, env) == Some(current) && r.details.eventType != Some("subscription.renewed")
  }

  /** `e` is what the row stands for, for a user who is on plan `current`. */
  predicate Records(e: Insert, r: AuditRow, user: string, current: string, env: Products) {
    var d := r.details;
    && e.auditId == "backfill:audit_logs:" + r.id && e.userId == user
    && e.details == d && e.originalAction == r.action && e.createdAt == r.createdAt
    && (r.action == "subscription_cancelled" ==>
          && e.eventType == PlanCancelled && e.toPlan == Some("free")
          && e.fromPlan == Some(NonEmpty(d.previousPlan).GetOr(current))
          && e.subscriptionId == NonEmpty(d.previousSubscriptionId))
    && (r.action == "old_subscription_cancelled" ==>
          && e.eventType == SupersededSubCancelled && e.fromPlan.None? && e.toPlan.None?
          && e.subscriptionId == NonEmpty(d.oldSubscriptionId))
    && (r.action == "webhook_plan_change" ==>
          && e.subscriptionId == NonEmpty(d.subscriptionId)
          && (IsCancelWebhook(r) ==>
                e.eventType == PlanCancelled && e.fromPlan == Some(current) && e.toPlan == Some("free"))
          && (!IsCancelWebhook(r) && Named(r, env).None? ==>
                e.eventType == PaymentSucceeded && e.fromPlan.None? && e.toPlan.None?)
          && (!IsCancelWebhook(r) && Named(r, env).Some? ==>
                var target := Named(r, env).value;
                && e.fromPlan == Some(current) && e.toPlan == Some(target)
                && (Standing(target) > Standing(current) ==> e.eventType == PlanUpgraded)
                && (Standing(target) < Standing(current) ==> e.eventType == PlanDowngraded)
                && (Standing(target) == Standing(current) ==> e.eventType == PlanRenewed)))
  }

  /* ----- the code's tests mean the same ----- */

  /** A word in small letters is found in the lower-cased text exactly where it is spelt. */
  lemma FoundIsSpelt(e: string, w: string)
    requires forall j :: 0 <= j < |w| ==> 'a' <= w[j] <= 'z'
    ensures Strpos(Lower(e), w, 0) != -1 <==> Spells(e, w)
  {
    hide Lower, Strpos;
    var l := Lower(e);
    forall k: nat
      ensures OccursAt(l, w, k) <==> SpeltAt(e, w, k)
    {
      LowerOccurs(e, w, k);
    }
    var p := Strpos(l, w, 0);
    if p != -1 {
      assert SpeltAt(e, w, p);
    }
    if k: nat :| k <= |e| && SpeltAt(e, w, k) {
      assert OccursAt(l, w, k);
    }
  }

  lemma LowerOccurs(e: string, w: string, k: nat)
    requires forall j :: 0 <= j < |w| ==> 'a' <= w[j] <= 'z'
    ensures OccursAt(Lower(e), w, k) <==> SpeltAt(e, w, k)
  {
    hide Lower;
    var l := Lower(e);
    if k + |w| <= |e| {
      var part := l[k..k + |w|];
      forall j | 0 <= j < |w|
        ensures part[j] == w[j] <==> e[k + j] == w[j] || e[k + j] as int + 32 == w[j] as int
      {
        LowerAt(e, k + j);
      }
      assert part == w <==> forall j :: 0 <= j < |w| ==> part[j] == w[j];
    }
  }

  lemma CancellationIsSpelt(e: string)
    ensures IsCancellation(e) <==> SaysCancelled(e)
  {
    hide Lower, Strpos, Spells;
    FoundIsSpelt(e, "cancel");
    FoundIsSpelt(e, "expired");
    FoundIsSpelt(e, "refund");
  }

  lemma OfferAt(m: map<string, string>, id: string, plan: string, key: string)
    requires key != ""
    ensures key in Offer(m, id, plan) <==> key == id || key in m
    ensures key in Offer(m, id, plan) ==> Offer(m, id, plan)[key] == if key == id then plan else m[key]
  {
  }

  lemma CatalogSellsPlan(env: Products, id: Option<string>)
    ensures PlanFromProductId(env, id) == PlanSold(env, id.GetOr(""))
  {
    if id.Some? && id.value != "" {
      hide Offer;
      CatalogIs(env);
      var m: map<string, string>, key := map[], id.value;
      OfferAt(m, env.starter, "starter", key);
      m := Offer(m, env.starter, "starter");
      OfferAt(m, env.pro, "pro", key);
      m := Offer(m, env.pro, "pro");
      OfferAt(m, env.agency, "agency", key);
      m := Offer(m, env.agency, "agency");
      OfferAt(m, env.enterprise, "enterprise", key);
      m := Offer(m, env.enterprise, "enterprise");
      OfferAt(m, env.starterAnnual, "starter", key);
      m := Offer(m, env.starterAnnual, "starter");
      OfferAt(m, env.proAnnual, "pro", key);
      m := Offer(m, env.proAnnual, "pro");
      OfferAt(m, env.agencyAnnual, "agency", key);
      assert Catalog(env) == Offer(m, env.agencyAnnual, "agency");
    }
  }

  /** The rank order: free and trial at the bottom, then starter, pro, agency, enterprise. */
  lemma RankIsStanding(plan: string)
    ensures Rank(plan) == Standing(plan)
  {
  }

  lemma SoldStandsApart(p: string, q: string)
    requires p in SOLD + {"free"} && q in SOLD
    ensures Standing(p) == Standing(q) <==> p == q
  {
  }

  lemma OwnerIsResolved(r: AuditRow)
    ensures ResolveUserId(r) == Owner(r)
  {
  }

  /** One row: no event if it is silent or not about billing, else one, and that records it. */
  lemma RowEvent(r: AuditRow, user: string, current: string, env: Products)
    requires current in SOLD + {"free"}
    ensures var es := EventOf(r, user, current, env);
            if Billing(r) && !Silent(r, current, env) then |es| == 1 && Records(es[0], r, user, current, env)
            else es == []
  {
    CancellationIsSpelt(r.details.eventType.GetOr(""));
    CatalogSellsPlan(env, r.details.productId);
    CatalogSells(env);
    var target := PlanFromProductId(env, r.details.productId);
    hide IsCancellation, SaysCancelled, PlanSold, Catalog;
    RankIsStanding(current);
    if target.Some? {
      RankIsStanding(target.value);
      SoldStandsApart(current, target.value);
    }
    hide PlanFromProductId, Rank, Standing;
  }

  /* ----- the events of one row, among all ----- */

  /** The events under one key. */
  function Under(es: seq<Insert>, id: string): seq<Insert> {
    if es == [] then [] else
      Under(es[..|es| - 1], id) + if es[|es| - 1].auditId == id then [es[|es| - 1]] else []
  }

  lemma {:induction false} UnderConcat(a: seq<Insert>, b: seq<Insert>, id: string)
    ensures Under(a + b, id) == Under(a, id) + Under(b, id)
    decreases |b|
  {
    if b == [] {
      assert a + b == a;
    } else {
      UnderConcat(a, b[..|b| - 1], id);
      assert (a + b)[..|a + b| - 1] == a + b[..|b| - 1];
    }
  }

  lemma {:induction false} NoneUnder(es: seq<Insert>, id: string)
    requires forall k :: 0 <= k < |es| ==> es[k].auditId != id
    ensures Under(es, id) == []
  {
    if es == [] {
    } else {
      NoneUnder(es[..|es| - 1], id);
    }
  }

  lemma OneUnder(e: Insert, id: string)
    ensures Under([e], id) == if e.auditId == id then [e] else []
  {
    assert [e][..0] == [];
  }

  lemma NotItsKey(es: seq<Insert>, rows: seq<AuditRow>, id: string)
    requires AllKeyed(es, rows) && !KeyOf(id, rows)
    ensures Under(es, id) == []
  {
    hide KeyOf;
    forall k | 0 <= k < |es|
      ensures es[k].auditId != id
    {
      assert KeyOf(es[k].auditId, rows);
    }
    NoneUnder(es, id);
  }

  lemma LastUnder(rows: seq<AuditRow>, user: string, env: Products, id: string)
    requires DistinctRows(rows) && rows != []
    ensures var front, last := rows[..|rows| - 1], rows[|rows| - 1];
            var added := EventOf(last, user, PlanAfter(front, env), env);
            && Under(UserInserts(rows, user, env), id) == Under(UserInserts(front, user, env), id) + Under(added, id)
            && Under(added, id) == (if id == AuditKey(last) then added else [])
            && (id == AuditKey(last) ==> Under(UserInserts(front, user, env), id) == [])
  {
    hide EventOf, Sets, AuditKey, KeyOf, PlanAfter, UserInserts, AllKeyed, DistinctIds, DistinctRows, Under;
    var front, last := rows[..|rows| - 1], rows[|rows| - 1];
    var before, added := UserInserts(front, user, env), EventOf(last, user, PlanAfter(front, env), env);
    UserInsertsSnoc(rows, user, env);
    UnderConcat(before, added, id);
    PlanIsKnown(front, env);
    EventFollows(last, user, PlanAfter(front, env), env);
    if id == AuditKey(last) {
      LastKeyIsNew(rows);
      FrontKeys(rows, user, env);
      NotItsKey(before, front, id);
      OwnUnder(added, id);
    } else {
      NoneUnder(added, id);
    }
  }

  lemma FrontKeys(rows: seq<AuditRow>, user: string, env: Products)
    requires DistinctRows(rows) && rows != []
    ensures AllKeyed(UserInserts(rows[..|rows| - 1], user, env), rows[..|rows| - 1])
  {
    UserKeys(rows[..|rows| - 1], user, env);
  }

  /** Within one user's history the events under a row's key are those of the row. */
  lemma {:induction false} UnderInHistory(rows: seq<AuditRow>, m: nat, user: string, env: Products)
    requires DistinctRows(rows) && m < |rows|
    ensures Under(UserInserts(rows, user, env), AuditKey(rows[m]))
            == EventOf(rows[m], user, PlanAfter(rows[..m], env), env)
    decreases |rows|
  {
    hide EventOf, AuditKey, PlanAfter, UserInserts, Under;
    var front := rows[..|rows| - 1];
    LastUnder(rows, user, env, AuditKey(rows[m]));
    if m < |front| {
      assert front[m] == rows[m] && front[..m] == rows[..m];
      UnderInHistory(front, m, user, env);
      OtherKey(rows, m);
    }
  }

  lemma OwnUnder(es: seq<Insert>, id: string)
    requires |es| <= 1 && (es != [] ==> es[0].auditId == id)
    ensures Under(es, id) == es
  {
    if es != [] {
      assert es == [es[0]];
      OneUnder(es[0], id);
    }
  }

  lemma OtherKey(rows: seq<AuditRow>, m: nat)
    requires DistinctRows(rows) && m < |rows| - 1
    ensures AuditKey(rows[|rows| - 1]) != AuditKey(rows[m])
  {
    if AuditKey(rows[|rows| - 1]) == AuditKey(rows[m]) {
      AuditKeyInjective(rows[|rows| - 1], rows[m]);
    }
  }

  /** Where a row stands among the rows of its user. */
  lemma {:induction false} PlaceInOwn(rows: seq<AuditRow>, n: nat, user: string)
    requires n < |rows| && ResolveUserId(rows[n]) == Some(user)
    ensures var own, m := Of(rows, user), |Of(rows[..n], user)|;
            m < |own| && own[m] == rows[n] && own[..m] == Of(rows[..n], user)
    decreases |rows|
  {
    hide ResolveUserId;
    var front := rows[..|rows| - 1];
    if n < |front| {
      assert front[n] == rows[n] && front[..n] == rows[..n];
      PlaceInOwn(front, n, user);
    }
  }

  /** Users are listed once, and each owner of a row is listed. */
  lemma {:induction false} OwnerIsListed(rows: seq<AuditRow>, n: nat)
    requires n < |rows| && ResolveUserId(rows[n]).Some?
    ensures ResolveUserId(rows[n]).value in Users(rows)
    decreases |rows|
  {
    hide ResolveUserId;
    var front := rows[..|rows| - 1];
    if n < |front| {
      assert front[n] == rows[n];
      OwnerIsListed(front, n);
    }
  }

  /** Users are listed by their first rows. */
  lemma {:induction false} UsersByFirstRow(rows: seq<AuditRow>, i: nat, j: nat, n: nat)
    requires i < j < |Users(rows)| && n < |rows| && ResolveUserId(rows[n]) == Some(Users(rows)[j])
    ensures exists m :: 0 <= m < n && ResolveUserId(rows[m]) == Some(Users(rows)[i])
    decreases |rows|
  {
    hide ResolveUserId;
    UsersAreOfRows(rows);
    var front := rows[..|rows| - 1];
    var before := Users(front);
    assert Users(rows)[..|before|] == before;
    if j < |before| {
      if n < |front| {
        UsersByFirstRow(front, i, j, n);
        var m :| 0 <= m < n && ResolveUserId(front[m]) == Some(before[i]);
        assert rows[m] == front[m];
      } else {
        ListedHasRow(front, i);
      }
    } else {
      if n < |front| {
        OwnerIsListed(front, n);
      }
      ListedHasRow(front, i);
    }
  }

  lemma {:induction false} ListedHasRow(rows: seq<AuditRow>, i: nat)
    requires i < |Users(rows)|
    ensures exists m :: 0 <= m < |rows| && ResolveUserId(rows[m]) == Some(Users(rows)[i])
  {
    hide ResolveUserId;
    var front := rows[..|rows| - 1];
    if i < |Users(front)| {
      ListedHasRow(front, i);
      var m :| 0 <= m < |front| && ResolveUserId(front[m]) == Some(Users(front)[i]);
      assert rows[m] == front[m];
    } else {
      assert ResolveUserId(rows[|rows| - 1]) == Some(Users(rows)[i]);
    }
  }

  lemma OthersKeys(rows: seq<AuditRow>, u: string, env: Products, id: string)
    requires DistinctRows(rows) && !KeyOf(id, Of(rows, u))
    ensures Under(UserInserts(Of(rows, u), u, env), id) == []
  {
    hide Of, UserInserts, KeyOf, AllKeyed, DistinctRows, Under;
    OfIsPart(rows, u);
    UserKeys(Of(rows, u), u, env);
    NotItsKey(UserInserts(Of(rows, u), u, env), Of(rows, u), id);
  }

  /** Among the events of all users, those under a key are in the history of the user whose row has it. */
  lemma {:induction false} UnderAll(users: seq<string>, rows: seq<AuditRow>, env: Products, user: string, id: string)
    requires DistinctRows(rows) && KeyOf(id, Of(rows, user))
    requires forall i, j :: 0 <= i < j < |users| ==> users[i] != users[j]
    ensures Under(InsertsOf(users, rows, env), id)
            == if user in users then Under(UserInserts(Of(rows, user), user, env), id) else []
  {
    hide InsertsOf, UserInserts, Of, KeyOf, Under, DistinctRows;
    if users == [] {
      NobodyInserts(rows, env);
      NoneUnder([], id);
    } else {
      var front, u := users[..|users| - 1], users[|users| - 1];
      assert users == front + [u] && u !in front;
      UnderAll(front, rows, env, user, id);
      InsertsOfSnoc(users, rows, env);
      UnderConcat(InsertsOf(front, rows, env), UserInserts(Of(rows, u), u, env), id);
      if u != user {
        KeysApart(rows, user, u, id);
        OthersKeys(rows, u, env, id);
      }
    }
  }

  lemma {:induction false} NobodysKey(users: seq<string>, rows: seq<AuditRow>, env: Products, id: string)
    requires DistinctRows(rows) && forall u :: !KeyOf(id, Of(rows, u))
    ensures Under(InsertsOf(users, rows, env), id) == []
  {
    hide InsertsOf, UserInserts, Of, KeyOf, Under, DistinctRows;
    if users == [] {
      NobodyInserts(rows, env);
      NoneUnder([], id);
    } else {
      var front, u := users[..|users| - 1], users[|users| - 1];
      NobodysKey(front, rows, env, id);
      InsertsOfSnoc(users, rows, env);
      UnderConcat(InsertsOf(front, rows, env), UserInserts(Of(rows, u), u, env), id);
      OthersKeys(rows, u, env, id);
    }
  }

  /** A row whose key is among those of a user is the user's. */
  lemma KeyIsOwned(rows: seq<AuditRow>, n: nat, u: string)
    requires DistinctRows(rows) && n < |rows| && KeyOf(AuditKey(rows[n]), Of(rows, u))
    ensures ResolveUserId(rows[n]) == Some(u)
  {
    OfIsPart(rows, u);
    hide Of, ResolveUserId;
    var own := Of(rows, u);
    var k :| 0 <= k < |own| && AuditKey(own[k]) == AuditKey(rows[n]);
    AuditKeyInjective(own[k], rows[n]);
    SameIdSameRow(rows, own[k], rows[n]);
  }

  lemma OrphansKey(rows: seq<AuditRow>, n: nat, u: string)
    requires DistinctRows(rows) && n < |rows| && ResolveUserId(rows[n]).None?
    ensures !KeyOf(AuditKey(rows[n]), Of(rows, u))
  {
    hide Of, ResolveUserId, KeyOf;
    if KeyOf(AuditKey(rows[n]), Of(rows, u)) {
      KeyIsOwned(rows, n, u);
    }
  }

  /* ----- the backfill is complete ----- */

  /** The plan that the rows of its user before it leave the owner of row `n` on. */
  function PlanBefore(rows: seq<AuditRow>, n: nat, env: Products): string
    requires n < |rows| && Owner(rows[n]).Some?
  {
    PlanAfter(Of(rows[..n], Owner(rows[n]).value), env)
  }

  /**
   * Every billing row that has an owner gives exactly one event, which records it, unless it is
   * silent; no other row gives any.
   */
  lemma EveryRowIsRecorded(rows: seq<AuditRow>, n: nat, env: Products)
    requires DistinctRows(rows) && n < |rows|
    ensures var r, es := rows[n], Under(Inserts(rows, env), "backfill:audit_logs:" + rows[n].id);
            if Owner(r).Some? && Billing(r) && !Silent(r, PlanBefore(rows, n, env), env)
            then |es| == 1 && Records(es[0], r, Owner(r).value, PlanBefore(rows, n, env), env)
            else es == []
  {
    var r := rows[n];
    OwnerIsResolved(r);
    hide Of, InsertsOf, UserInserts, Under, EventOf, Records, Silent, ResolveUserId, KeyOf, Users, PlanAfter, Owner;
    UsersAreOfRows(rows);
    if Owner(r).Some? {
      var u, id := Owner(r).value, AuditKey(r);
      PlaceInOwn(rows, n, u);
      OwnerIsListed(rows, n);
      OfIsPart(rows, u);
      var own, m := Of(rows, u), |Of(rows[..n], u)|;
      assert KeyOf(id, own) by { ItsKey(own, m); }
      UnderAll(Users(rows), rows, env, u, id);
      UnderInHistory(own, m, u, env);
      PlanIsKnown(own[..m], env);
      RowEvent(r, u, PlanAfter(own[..m], env), env);
    } else {
      forall u: string
        ensures !KeyOf(AuditKey(r), Of(rows, u))
      {
        OrphansKey(rows, n, u);
      }
      NobodysKey(Users(rows), rows, env, AuditKey(r));
    }
  }

  lemma ItsKey(rows: seq<AuditRow>, m: nat)
    requires m < |rows|
    ensures KeyOf(AuditKey(rows[m]), rows)
  {
  }

  /** And every event is that of a row. */
  lemma EveryEventHasItsRow(rows: seq<AuditRow>, env: Products, k: nat)
    requires DistinctRows(rows) && k < |Inserts(rows, env)|
    ensures exists n :: 0 <= n < |rows| && Inserts(rows, env)[k].auditId == "backfill:audit_logs:" + rows[n].id
  {
    hide InsertsOf, UserInserts, Of, KeyOf;
    UsersAreOfRows(rows);
    AllKeysDistinct(Users(rows), rows, env);
    var id := Inserts(rows, env)[k].auditId;
    var i :| 0 <= i < |Users(rows)| && KeyOf(id, Of(rows, Users(rows)[i]));
    OfIsPart(rows, Users(rows)[i]);
    ItsRow(rows, Of(rows, Users(rows)[i]), id);
  }

  lemma ItsRow(rows: seq<AuditRow>, own: seq<AuditRow>, id: string)
    requires KeyOf(id, own) && forall k :: 0 <= k < |own| ==> own[k] in rows
    ensures exists n :: 0 <= n < |rows| && id == "backfill:audit_logs:" + rows[n].id
  {
    var k :| 0 <= k < |own| && AuditKey(own[k]) == id;
    var n :| 0 <= n < |rows| && rows[n] == own[k];
    assert id == "backfill:audit_logs:" + rows[n].id;
  }
}
