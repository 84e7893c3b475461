/** Rebuilding each user's plan history from the audit log: the backfill of billing events. */
module PlanHistory {
  import opened Php

  /* ----- plans ----- */

  const PLAN_RANK: map<string, nat> :=
    map["free" := 0, "trial" := 0, "starter" := 1, "pro" := 2, "agency" := 3, "enterprise" := 4]

  function Rank(plan: string): nat {
    if plan in PLAN_RANK then PLAN_RANK[plan] else 0
  }

  datatype Direction = Upgrade | Downgrade | Same

  function ComparePlans(from: string, to: string): Direction {
    if Rank(to) > Rank(from) then Upgrade else if Rank(to) < Rank(from) then Downgrade else Same
  }

  /** The product ids of the environment; an unset or empty one is not used. */
  datatype Products = Products(
    starter: string, pro: string, agency: string, enterprise: string,
    starterAnnual: string, proAnnual: string, agencyAnnual: string)

  function Offer(m: map<string, string>, id: string, plan: string): map<string, string> {
    if id == "" then m else m[id := plan]
  }

  function Catalog(env: Products): map<string, string> {
    var m := Offer(map[], env.starter, "starter");
    var m := Offer(m, env.pro, "pro");
    var m := Offer(m, env.agency, "agency");
    var m := Offer(m, env.enterprise, "enterprise");
    var m := Offer(m, env.starterAnnual, "starter");
    var m := Offer(m, env.proAnnual, "pro");
    Offer(m, env.agencyAnnual, "agency")
  }

  /** `x || null` on an optional string. */
  function Truthy(o: Option<string>): Option<string> {
    if o.Some? && o.value != "" then o else None
  }

  function PlanFromProductId(env: Products, productId: Option<string>): Option<string> {
    if productId.Some? && productId.value != "" && productId.value in Catalog(env)
    then Some(Catalog(env)[productId.value]) else None
  }

  /* ----- rows ----- */

  datatype Details = Details(
    previousPlan: Option<string>, previousSubscriptionId: Option<string>, productId: Option<string>,
    subscriptionId: Option<string>, eventType: Option<string>, oldSubscriptionId: Option<string>)

  datatype AuditRow = AuditRow(
    id: string, userId: Option<string>, action: string, targetId: Option<string>, targetType: Option<string>,
    details: Details, createdAt: string)

  datatype EventType =
    | PlanCancelled | PlanUpgraded | PlanDowngraded | PlanRenewed | PaymentSucceeded | SupersededSubCancelled

  datatype Insert = Insert(
    auditId: string, userId: string, eventType: EventType, fromPlan: Option<string>, toPlan: Option<string>,
    subscriptionId: Option<string>, details: Details, originalAction: string, createdAt: string)

  const USER_CANCEL := "subscription_cancelled"
  const WEBHOOK := "webhook_plan_change"
  const OLD_CANCEL := "old_subscription_cancelled"

  /** Rows written under no user carry the user as their target. */
  function ResolveUserId(r: AuditRow): Option<string> {
    if Truthy(r.userId).Some? then r.userId
    else if r.targetType == Some("user") && Truthy(r.targetId).Some? then r.targetId
    else None
  }

  /** `/cancel|expired|refund/i` */
  predicate IsCancellation(eventType: string) {
    var e := Lower(eventType);
    Strpos(e, "cancel", 0) != -1 || Strpos(e, "expired", 0) != -1 || Strpos(e, "refund", 0) != -1
  }

  function AuditKey(r: AuditRow): string {
    "backfill:audit_logs:" + r.id
  }

  function Entry(r: AuditRow, user: string, e: EventType, from: Option<string>, to: Option<string>,
                 sub: Option<string>): Insert
  {
    Insert(AuditKey(r), user, e, from, to, sub, r.details, r.action, r.createdAt)
  }

  /* ----- one user's history ----- */

  /** The plan a row leaves the user on, if it says. */
  function Sets(r: AuditRow, env: Products): Option<string> {
    if r.action == USER_CANCEL then Some("free")
    else if r.action == WEBHOOK then
      if IsCancellation(r.details.eventType.GetOr("")) then Some("free")
      else PlanFromProductId(env, r.details.productId)
    else None
  }

  /** The last plan that the rows set; everyone starts on free. */
  function PlanAfter(rows: seq<AuditRow>, env: Products): string {
    if rows == [] then "free"
    else Sets(rows[|rows| - 1], env).GetOr(PlanAfter(rows[..|rows| - 1], env))
  }

  /** The event one row gives rise to, for a user who is on plan `current`. */
  function EventOf(r: AuditRow, user: string, current: string, env: Products): seq<Insert> {
    var d := r.details;
    var sub := Truthy(d.subscriptionId);
    if r.action == USER_CANCEL then
      [Entry(r, user, PlanCancelled, Some(Truthy(d.previousPlan).GetOr(current)), Some("free"),
             Truthy(d.previousSubscriptionId))]
    else if r.action == WEBHOOK then
      if IsCancellation(d.eventType.GetOr("")) then
        [Entry(r, user, PlanCancelled, Some(current), Some("free"), sub)]
      else
        match PlanFromProductId(env, d.productId)
        case None => [Entry(r, user, PaymentSucceeded, None, None, sub)]
        case Some(target) =>
          (match ComparePlans(current, target)
           case Upgrade => [Entry(r, user, PlanUpgraded, Some(current), Some(target), sub)]
           case Downgrade => [Entry(r, user, PlanDowngraded, Some(current), Some(target), sub)]
           case Same =>
             if d.eventType == Some("subscription.renewed")
             then [Entry(r, user, PlanRenewed, Some(current), Some(target), sub)] else [])
    else if r.action == OLD_CANCEL then
      [Entry(r, user, SupersededSubCancelled, None, None, Truthy(d.oldSubscriptionId))]
    else []
  }

  /** All events of one user: each row sees the plan that the rows before it lead to. */
  function UserInserts(rows: seq<AuditRow>, user: string, env: Products): seq<Insert> {
    if rows == [] then [] else
      var front, r := rows[..|rows| - 1], rows[|rows| - 1];
      UserInserts(front, user, env) + EventOf(r, user, PlanAfter(front, env), env)
  }

  /* ----- all users ----- */

  function Of(rows: seq<AuditRow>, user: string): seq<AuditRow> {
    if rows == [] then [] else
      var front, r := rows[..|rows| - 1], rows[|rows| - 1];
      Of(front, user) + if ResolveUserId(r) == Some(user) then [r] else []
  }

  /** Users in the order of their first row. */
  function Users(rows: seq<AuditRow>): seq<string> {
    if rows == [] then [] else
      var before, u := Users(rows[..|rows| - 1]), ResolveUserId(rows[|rows| - 1]);
      if u.Some? && u.value !in before then before + [u.value] else before
  }

  function InsertsOf(users: seq<string>, rows: seq<AuditRow>, env: Products): seq<Insert> {
    if users == [] then [] else
      InsertsOf(users[..|users| - 1], rows, env) + UserInserts(Of(rows, users[|users| - 1]), users[|users| - 1], env)
  }

  function Inserts(rows: seq<AuditRow>, env: Products): seq<Insert> {
    InsertsOf(Users(rows), rows, env)
  }

  /** The code's two passes: group the rows by user, then walk each group keeping the current plan. */
  method BuildInserts(rows: seq<AuditRow>, env: Products) returns (out: seq<Insert>)
    ensures out == Inserts(rows, env)
  {
    hide UserInserts, Of;
    var order, byUser := GroupByUser(rows);
    out := [];
    for j := 0 to |order|
      invariant out == InsertsOf(order[..j], rows, env)
    {
      assert order[..j + 1][..j] == order[..j];
      assert order[j] in order;
      out := WalkUser(out, byUser[order[j]], order[j], env);
    }
    assert order[..|order|] == order;
  }

  /** A JavaScript `Map` keeps its keys in insertion order: `order`. */
  method GroupByUser(rows: seq<AuditRow>) returns (order: seq<string>, byUser: map<string, seq<AuditRow>>)
    ensures order == Users(rows)
    ensures forall u :: u in byUser <==> u in order
    ensures forall u :: u in byUser ==> byUser[u] == Of(rows, u)
  {
    hide ResolveUserId;
    order, byUser := [], map[];
    for i := 0 to |rows|
      invariant order == Users(rows[..i])
      invariant forall u :: u in byUser <==> u in order
      invariant forall u :: u in byUser ==> byUser[u] == Of(rows[..i], u)
      invariant forall u :: u !in byUser ==> Of(rows[..i], u) == []
    {
      assert rows[..i + 1][..i] == rows[..i];
      var uid := ResolveUserId(rows[i]);
      if uid.Some? {
        var u := uid.value;
        if u !in byUser {
          order := order + [u];
          byUser := byUser[u := []];
        }
        byUser := byUser[u := byUser[u] + [rows[i]]];
      }
    }
    assert rows[..|rows|] == rows;
  }

  /** One row, branch by branch: the events it adds and the plan it leads to. */
  method WalkRow(r: AuditRow, user: string, currentPlan: string, env: Products)
    returns (added: seq<Insert>, plan: string)
    ensures added == EventOf(r, user, currentPlan, env)
    ensures plan == Sets(r, env).GetOr(currentPlan)
  {
    hide IsCancellation, PlanFromProductId, ComparePlans;
    added, plan := [], currentPlan;
    var d := r.details;
    if r.action == USER_CANCEL {
      var previousPlan := Truthy(d.previousPlan).GetOr(currentPlan);
      added := [Entry(r, user, PlanCancelled, Some(previousPlan), Some("free"), Truthy(d.previousSubscriptionId))];
      plan := "free";
    } else if r.action == WEBHOOK {
      var target := PlanFromProductId(env, d.productId);
      var sub := Truthy(d.subscriptionId);
      if IsCancellation(d.eventType.GetOr("")) {
        added := [Entry(r, user, PlanCancelled, Some(currentPlan), Some("free"), sub)];
        return added, "free";
      }
      if target.None? {
        added := [Entry(r, user, PaymentSucceeded, None, None, sub)];
        return added, currentPlan;
      }
      var direction := ComparePlans(currentPlan, target.value);
      if direction == Upgrade {
        added := [Entry(r, user, PlanUpgraded, Some(currentPlan), target, sub)];
      } else if direction == Downgrade {
        added := [Entry(r, user, PlanDowngraded, Some(currentPlan), target, sub)];
      } else if d.eventType == Some("subscription.renewed") {
        added := [Entry(r, user, PlanRenewed, Some(currentPlan), target, sub)];
      }
      plan := target.value;
    } else if r.action == OLD_CANCEL {
      added := [Entry(r, user, SupersededSubCancelled, None, None, Truthy(d.oldSubscriptionId))];
    }
  }

  method WalkUser(sofar: seq<Insert>, rows: seq<AuditRow>, user: string, env: Products) returns (out: seq<Insert>)
    ensures out == sofar + UserInserts(rows, user, env)
  {
    hide EventOf, Sets, UserInserts, PlanAfter;
    out := sofar;
    var currentPlan := "free";
    NoRows(user, env);
    for i := 0 to |rows|
      invariant currentPlan == PlanAfter(rows[..i], env)
      invariant out == sofar + UserInserts(rows[..i], user, env)
    {
      WalkStep(rows, i, user, env);
      var added, plan := WalkRow(rows[i], user, currentPlan, env);
      out, currentPlan := out + added, plan;
    }
    assert rows[..|rows|] == rows;
  }

  lemma NoRows(user: string, env: Products)
    ensures PlanAfter([], env) == "free" && UserInserts([], user, env) == []
  {
  }

  lemma WalkStep(rows: seq<AuditRow>, i: nat, user: string, env: Products)
    requires i < |rows|
    ensures UserInserts(rows[..i + 1], user, env)
            == UserInserts(rows[..i], user, env) + EventOf(rows[i], user, PlanAfter(rows[..i], env), env)
    ensures PlanAfter(rows[..i + 1], env) == Sets(rows[i], env).GetOr(PlanAfter(rows[..i], env))
  {
    assert rows[..i + 1][..i] == rows[..i];
    hide EventOf, Sets;
  }

  /* ----- what the history says ----- */

  const SOLD: set<string> := {"starter", "pro", "agency", "enterprise"}

  lemma CatalogSells(env: Products)
    ensures forall id :: id in Catalog(env) ==> Catalog(env)[id] in SOLD
  {
    hide Offer, Catalog;
    var m0: map<string, string> := map[];
    OfferSells(m0, env.starter, "starter");
    var m1 := Offer(m0, env.starter, "starter");
    OfferSells(m1, env.pro, "pro");
    var m2 := Offer(m1, env.pro, "pro");
    OfferSells(m2, env.agency, "agency");
    var m3 := Offer(m2, env.agency, "agency");
    OfferSells(m3, env.enterprise, "enterprise");
    var m4 := Offer(m3, env.enterprise, "enterprise");
    OfferSells(m4, env.starterAnnual, "starter");
    var m5 := Offer(m4, env.starterAnnual, "starter");
    OfferSells(m5, env.proAnnual, "pro");
    var m6 := Offer(m5, env.proAnnual, "pro");
    OfferSells(m6, env.agencyAnnual, "agency");
    CatalogIs(env);
  }

  lemma CatalogIs(env: Products)
    ensures Catalog(env)
            == Offer(Offer(Offer(Offer(Offer(Offer(Offer(map[],
                 env.starter, "starter"), env.pro, "pro"), env.agency, "agency"), env.enterprise, "enterprise"),
                 env.starterAnnual, "starter"), env.proAnnual, "pro"), env.agencyAnnual, "agency")
  {
    hide Offer;
  }

  lemma OfferSells(m: map<string, string>, id: string, plan: string)
    requires plan in SOLD && forall k :: k in m ==> m[k] in SOLD
    ensures forall k :: k in Offer(m, id, plan) ==> Offer(m, id, plan)[k] in SOLD
  {
  }

  /** A user is on free or on a plan that is sold. */
  lemma {:induction false} PlanIsKnown(rows: seq<AuditRow>, env: Products)
    ensures PlanAfter(rows, env) in SOLD + {"free"}
  {
    CatalogSells(env);
    if rows == [] {
    } else {
      hide Catalog, IsCancellation;
      PlanIsKnown(rows[..|rows| - 1], env);
    }
  }

  /** Between known plans, the same rank is the same plan. */
  lemma SameRankSamePlan(p: string, q: string)
    requires p in SOLD + {"free"} && q in SOLD && Rank(p) == Rank(q)
    ensures p == q
  {
  }

  /** The labels the code gives, against the rank order; and every transition starts where the user was. */
  predicate WellLabelled(e: Insert, current: string) {
    match e.eventType
    case PlanUpgraded => e.fromPlan == Some(current) && e.toPlan.Some? && Rank(e.toPlan.value) > Rank(current)
    case PlanDowngraded => e.fromPlan == Some(current) && e.toPlan.Some? && Rank(e.toPlan.value) < Rank(current)
    case PlanRenewed => e.fromPlan == Some(current) && e.toPlan == Some(current)
    case PlanCancelled =>
      && e.toPlan == Some("free")
      && (e.originalAction == WEBHOOK ==> e.fromPlan == Some(current))
      && (e.originalAction == USER_CANCEL ==> e.fromPlan == Some(Truthy(e.details.previousPlan).GetOr(current)))
    case PaymentSucceeded => e.fromPlan.None? && e.toPlan.None?
    case SupersededSubCancelled => e.fromPlan.None? && e.toPlan.None?
  }

  /** The plan an emitted row leads to. */
  function Follow(current: string, e: Insert): string {
    e.toPlan.GetOr(current)
  }

  function Replay(es: seq<Insert>): string {
    if es == [] then "free" else Follow(Replay(es[..|es| - 1]), es[|es| - 1])
  }

  lemma EventFollows(r: AuditRow, user: string, current: string, env: Products)
    requires current in SOLD + {"free"}
    ensures var es := EventOf(r, user, current, env);
            && |es| <= 1
            && (es == [] ==> Sets(r, env).GetOr(current) == current)
            && (es != [] ==> && WellLabelled(es[0], current) && Follow(current, es[0]) == Sets(r, env).GetOr(current)
                             && es[0].userId == user && es[0].auditId == AuditKey(r))
  {
    CatalogSells(env);
    hide Catalog, IsCancellation;
    var target := PlanFromProductId(env, r.details.productId);
    if r.action == WEBHOOK && target.Some? && ComparePlans(current, target.value) == Same {
      SameRankSamePlan(current, target.value);
    }
  }

  /** Every event is the user's own, and labelled right for the plan that the events before it lead to. */
  predicate AllLabelled(es: seq<Insert>, user: string) {
    forall k :: 0 <= k < |es| ==> WellLabelled(es[k], Replay(es[..k])) && es[k].userId == user
  }

  lemma LabelledSnoc(es: seq<Insert>, e: Insert, user: string)
    requires AllLabelled(es, user) && WellLabelled(e, Replay(es)) && e.userId == user
    ensures AllLabelled(es + [e], user) && Replay(es + [e]) == Follow(Replay(es), e)
  {
    var all := es + [e];
    assert all[..|es|] == es;
    hide WellLabelled, Replay;
    forall k | 0 <= k < |all|
      ensures WellLabelled(all[k], Replay(all[..k])) && all[k].userId == user
    {
      if k < |es| {
        assert all[..k] == es[..k] && all[k] == es[k];
      }
    }
  }

  /**
   * A user's history: replaying the emitted rows ends on the plan that the audit rows end on,
   * and each emitted row is labelled right for the plan that the rows before it lead to.
   */
  lemma {:induction false} HistoryIsFaithful(rows: seq<AuditRow>, user: string, env: Products)
    ensures Replay(UserInserts(rows, user, env)) == PlanAfter(rows, env)
    ensures AllLabelled(UserInserts(rows, user, env), user)
  {
    if rows == [] {
    } else {
      hide EventOf, Sets, WellLabelled, Follow, AllLabelled, Replay;
      var front, r := rows[..|rows| - 1], rows[|rows| - 1];
      HistoryIsFaithful(front, user, env);
      PlanIsKnown(front, env);
      EventFollows(r, user, PlanAfter(front, env), env);
      var before, added := UserInserts(front, user, env), EventOf(r, user, PlanAfter(front, env), env);
      if added == [] {
        assert before + added == before;
      } else {
        assert added == [added[0]];
        LabelledSnoc(before, added[0], user);
      }
    }
  }

  /* ----- users do not mix ----- */

  function Keep(es: seq<Insert>, user: string): seq<Insert> {
    if es == [] then [] else
      Keep(es[..|es| - 1], user) + if es[|es| - 1].userId == user then [es[|es| - 1]] else []
  }

  lemma {:induction false} KeepConcat(a: seq<Insert>, b: seq<Insert>, user: string)
    ensures Keep(a + b, user) == Keep(a, user) + Keep(b, user)
    decreases |b|
  {
    if b == [] {
      assert a + b == a && Keep(a, user) + [] == Keep(a, user);
    } else {
      var front := b[..|b| - 1];
      KeepConcat(a, front, user);
      assert (a + b)[..|a + b| - 1] == a + front;
      var last := if b[|b| - 1].userId == user then [b[|b| - 1]] else [];
      assert Keep(a, user) + Keep(front, user) + last == Keep(a, user) + (Keep(front, user) + last);
    }
  }

  lemma {:induction false} KeepAll(es: seq<Insert>, owner: string, user: string)
    requires forall k :: 0 <= k < |es| ==> es[k].userId == owner
    ensures Keep(es, user) == if owner == user then es else []
  {
    if es == [] {
    } else {
      KeepAll(es[..|es| - 1], owner, user);
      assert es == es[..|es| - 1] + [es[|es| - 1]];
    }
  }

  lemma OwnEvents(rows: seq<AuditRow>, user: string, env: Products)
    ensures forall k :: 0 <= k < |UserInserts(rows, user, env)| ==> UserInserts(rows, user, env)[k].userId == user
  {
    hide UserInserts, WellLabelled;
    HistoryIsFaithful(rows, user, env);
  }

  lemma {:induction false} KeepOfUsers(users: seq<string>, rows: seq<AuditRow>, env: Products, user: string)
    requires forall i, j :: 0 <= i < j < |users| ==> users[i] != users[j]
    ensures Keep(InsertsOf(users, rows, env), user)
            == if user in users then UserInserts(Of(rows, user), user, env) else []
  {
    hide UserInserts, Of, Keep, InsertsOf;
    if users != [] {
      var front, u := users[..|users| - 1], users[|users| - 1];
      KeepOfUsers(front, rows, env, user);
      InsertsOfSnoc(users, rows, env);
      var es := UserInserts(Of(rows, u), u, env);
      KeepConcat(InsertsOf(front, rows, env), es, user);
      OwnEvents(Of(rows, u), u, env);
      KeepAll(es, u, user);
      assert users == front + [u];
      assert UserInserts(Of(rows, user), user, env) + [] == UserInserts(Of(rows, user), user, env);
      assert [] + UserInserts(Of(rows, user), user, env) == UserInserts(Of(rows, user), user, env);
      assert user == u ==> user !in front;
    } else {
      NobodyKept(rows, env, user);
    }
  }

  lemma InsertsOfSnoc(users: seq<string>, rows: seq<AuditRow>, env: Products)
    requires users != []
    ensures var u := users[|users| - 1];
            InsertsOf(users, rows, env) == InsertsOf(users[..|users| - 1], rows, env) + UserInserts(Of(rows, u), u, env)
  {
  }

  lemma NobodyKept(rows: seq<AuditRow>, env: Products, user: string)
    ensures Keep(InsertsOf([], rows, env), user) == []
  {
  }

  lemma {:induction false} UsersAreOfRows(rows: seq<AuditRow>)
    ensures forall i, j :: 0 <= i < j < |Users(rows)| ==> Users(rows)[i] != Users(rows)[j]
    ensures forall u :: u in Users(rows) <==> Of(rows, u) != []
  {
    if rows == [] {
    } else {
      UsersAreOfRows(rows[..|rows| - 1]);
    }
  }

  lemma OfSnoc(rows: seq<AuditRow>, r: AuditRow, user: string)
    ensures Of(rows + [r], user) == Of(rows, user) + if ResolveUserId(r) == Some(user) then [r] else []
  {
    assert (rows + [r])[..|rows|] == rows;
  }

  lemma {:induction false} OfOf(rows: seq<AuditRow>, user: string)
    ensures Of(Of(rows, user), user) == Of(rows, user)
  {
    if rows == [] {
    } else {
      var front, r := rows[..|rows| - 1], rows[|rows| - 1];
      OfOf(front, user);
      OfSnoc(Of(front, user), r, user);
      assert Of(front, user) + [] == Of(front, user);
    }
  }

  /** The rows of a user in the result are the history of that user's audit rows, and of those alone. */
  lemma UsersDoNotMix(rows: seq<AuditRow>, user: string, env: Products)
    ensures Keep(Inserts(rows, env), user) == UserInserts(Of(rows, user), user, env)
    ensures Keep(Inserts(rows, env), user) == Keep(Inserts(Of(rows, user), env), user)
  {
    hide Keep, InsertsOf, UserInserts;
    UsersAreOfRows(rows);
    KeepOfUsers(Users(rows), rows, env, user);
    NoRows(user, env);
    UsersAreOfRows(Of(rows, user));
    KeepOfUsers(Users(Of(rows, user)), Of(rows, user), env, user);
    OfOf(rows, user);
  }

  /* ----- a run for one user ----- */

  /** `AND (user_id = $1 OR target_id = $1)` */
  function Scoped(rows: seq<AuditRow>, user: string): seq<AuditRow> {
    if rows == [] then [] else
      var front, r := rows[..|rows| - 1], rows[|rows| - 1];
      Scoped(front, user) + if InScope(r, user) then [r] else []
  }

  lemma {:induction false} ScopeKeepsUser(rows: seq<AuditRow>, user: string)
    ensures Of(Scoped(rows, user), user) == Of(rows, user)
  {
    if rows == [] {
    } else {
      var front, r := rows[..|rows| - 1], rows[|rows| - 1];
      ScopeKeepsUser(front, user);
      OfSnoc(Scoped(front, user), r, user);
      assert Scoped(front, user) + [] == Scoped(front, user);
      assert Of(front, user) + [] == Of(front, user);
    }
  }

  predicate InScope(r: AuditRow, user: string) {
    r.userId == Some(user) || r.targetId == Some(user)
  }

  /** The scope takes in a user's rows and no others exactly when each row in it resolves to the user. */
  lemma {:induction false} ScopeIsExact(rows: seq<AuditRow>, user: string)
    ensures Of(rows, user) == Scoped(rows, user)
            <==> forall k :: 0 <= k < |rows| && InScope(rows[k], user) ==> ResolveUserId(rows[k]) == Some(user)
    ensures |Of(rows, user)| <= |Scoped(rows, user)|
  {
    if rows == [] {
    } else {
      hide ResolveUserId;
      var front, r := rows[..|rows| - 1], rows[|rows| - 1];
      ScopeIsExact(front, user);
      ResolvedIsInScope(r, user);
      LongerIsOther(Of(front, user), Scoped(front, user), r);
    }
  }

  lemma ResolvedIsInScope(r: AuditRow, user: string)
    ensures ResolveUserId(r) == Some(user) ==> InScope(r, user)
  {
  }

  lemma LongerIsOther(a: seq<AuditRow>, b: seq<AuditRow>, r: AuditRow)
    requires |a| <= |b|
    ensures a + [r] == b + [r] <==> a == b
    ensures a + [] == b + [] <==> a == b
    ensures a + [] != b + [r]
  {
    assert (a + [r])[..|a|] == a && (b + [r])[..|b|] == b && a + [] == a && b + [] == b;
  }

  /**
   * The rows that the application writes for the three actions.  A user who cancels is the
   * user and the target; the webhook writes under no user and names the user as the target.
   */
  predicate AsWritten(r: AuditRow) {
    && r.targetType == Some("user") && r.targetId.Some? && r.targetId.value != ""
    && (r.userId.None? || (r.action == USER_CANCEL && r.userId == r.targetId))
  }

  predicate AllAsWritten(rows: seq<AuditRow>) {
    forall k :: 0 <= k < |rows| ==> AsWritten(rows[k])
  }

  lemma {:induction false} OneUser(rows: seq<AuditRow>, user: string)
    requires forall k :: 0 <= k < |rows| ==> ResolveUserId(rows[k]) == Some(user)
    ensures Users(rows) == if rows == [] then [] else [user]
  {
    if rows == [] {
    } else {
      hide ResolveUserId;
      OneUser(rows[..|rows| - 1], user);
    }
  }

  lemma {:induction false} AllOf(rows: seq<AuditRow>, user: string)
    requires forall k :: 0 <= k < |rows| ==> ResolveUserId(rows[k]) == Some(user)
    ensures Of(rows, user) == rows
  {
    if rows == [] {
    } else {
      hide ResolveUserId;
      AllOf(rows[..|rows| - 1], user);
      assert rows == rows[..|rows| - 1] + [rows[|rows| - 1]];
    }
  }

  lemma {:induction false} OfResolves(rows: seq<AuditRow>, user: string)
    ensures forall k :: 0 <= k < |Of(rows, user)| ==> ResolveUserId(Of(rows, user)[k]) == Some(user)
  {
    if rows == [] {
    } else {
      hide ResolveUserId;
      OfResolves(rows[..|rows| - 1], user);
    }
  }

  lemma InsertsOfOne(rows: seq<AuditRow>, user: string, env: Products)
    ensures Inserts(Of(rows, user), env) == UserInserts(Of(rows, user), user, env)
  {
    hide UserInserts, Of, Users, InsertsOf;
    OfResolves(rows, user);
    OneUser(Of(rows, user), user);
    AllOf(Of(rows, user), user);
    NobodyInserts(Of(rows, user), env);
    NoRows(user, env);
    if Of(rows, user) != [] {
      InsertsOfSnoc([user], Of(rows, user), env);
      assert [user][..0] == [];
      assert [] + UserInserts(Of(rows, user), user, env) == UserInserts(Of(rows, user), user, env);
    }
  }

  /**
   * Over the rows the application writes, a run scoped to one user emits that user's events of the
   * full run, and nothing else.
   */
  lemma ScopedRunIsOwn(rows: seq<AuditRow>, user: string, env: Products)
    requires AllAsWritten(rows)
    ensures Inserts(Scoped(rows, user), env) == Keep(Inserts(rows, env), user) == UserInserts(Of(rows, user), user, env)
  {
    forall k | 0 <= k < |rows| && InScope(rows[k], user)
      ensures ResolveUserId(rows[k]) == Some(user)
    {
      assert AsWritten(rows[k]);
    }
    hide Keep, Inserts, UserInserts, AsWritten, ResolveUserId;
    ScopeIsExact(rows, user);
    UsersDoNotMix(rows, user, env);
    InsertsOfOne(rows, user, env);
  }

  /** For that user it does so on any rows. */
  lemma ScopedRunAgrees(rows: seq<AuditRow>, user: string, env: Products)
    ensures Keep(Inserts(Scoped(rows, user), env), user) == Keep(Inserts(rows, env), user)
  {
    hide Keep, Inserts, UserInserts;
    UsersDoNotMix(rows, user, env);
    UsersDoNotMix(Scoped(rows, user), user, env);
    ScopeKeepsUser(rows, user);
  }

  /* ----- applying ----- */

  type Table = map<string, Insert>

  /** `INSERT … ON CONFLICT (dodo_event_id) DO NOTHING` for each row in turn. */
  function Applied(t: Table, es: seq<Insert>): Table {
    if es == [] then t else
      var before, e := Applied(t, es[..|es| - 1]), es[|es| - 1];
      if e.auditId in before then before else before[e.auditId := e]
  }

  class BillingEvents {
    var rows: Table

    constructor (rows: Table)
      ensures this.rows == rows
    {
      this.rows := rows;
    }

    method ApplyInserts(es: seq<Insert>) returns (inserted: nat, skipped: nat)
      modifies this
      ensures rows == Applied(old(rows), es)
      ensures inserted + skipped == |es| && inserted == |rows| - |old(rows)|
    {
      inserted, skipped := 0, 0;
      for i := 0 to |es|
        invariant rows == Applied(old(rows), es[..i])
        invariant inserted + skipped == i && inserted == |rows| - |old(rows)|
      {
        assert es[..i + 1][..i] == es[..i];
        if es[i].auditId in rows {
          skipped := skipped + 1;
        } else {
          rows := rows[es[i].auditId := es[i]];
          inserted := inserted + 1;
        }
      }
      assert es[..|es|] == es;
    }
  }

  /** Rows that are there stay as they are; every event has a row afterwards. */
  lemma {:induction false} AppliedKeeps(t: Table, es: seq<Insert>)
    ensures forall id :: id in t ==> id in Applied(t, es) && Applied(t, es)[id] == t[id]
    ensures forall k :: 0 <= k < |es| ==> es[k].auditId in Applied(t, es)
    ensures forall id :: id in Applied(t, es) && id !in t ==> exists k :: 0 <= k < |es| && es[k].auditId == id
  {
    if es == [] {
    } else {
      var front := es[..|es| - 1];
      AppliedKeeps(t, front);
      forall id | id in Applied(t, es) && id !in t
        ensures exists k :: 0 <= k < |es| && es[k].auditId == id
      {
        if id in Applied(t, front) {
          var k :| 0 <= k < |front| && front[k].auditId == id;
          assert es[k].auditId == id;
        } else {
          assert es[|es| - 1].auditId == id;
        }
      }
    }
  }

  lemma {:induction false} NothingNew(t: Table, es: seq<Insert>)
    requires forall k :: 0 <= k < |es| ==> es[k].auditId in t
    ensures Applied(t, es) == t
  {
    if es == [] {
    } else {
      NothingNew(t, es[..|es| - 1]);
    }
  }

  /** Running the backfill again changes nothing. */
  lemma ApplyTwice(t: Table, es: seq<Insert>)
    ensures Applied(Applied(t, es), es) == Applied(t, es)
  {
    AppliedKeeps(t, es);
    NothingNew(Applied(t, es), es);
  }

  predicate DistinctIds(es: seq<Insert>) {
    forall i, j :: 0 <= i < j < |es| ==> es[i].auditId != es[j].auditId
  }

  predicate Stored(t: Table, es: seq<Insert>) {
    forall k :: 0 <= k < |es| ==> es[k].auditId in t && t[es[k].auditId] == es[k]
  }

  lemma StoredSnoc(t: Table, es: seq<Insert>)
    requires es != [] && DistinctIds(es) && Stored(t, es[..|es| - 1]) && es[|es| - 1].auditId !in t
    ensures Stored(t[es[|es| - 1].auditId := es[|es| - 1]], es)
  {
    var e, front := es[|es| - 1], es[..|es| - 1];
    var t' := t[e.auditId := e];
    forall k | 0 <= k < |es|
      ensures es[k].auditId in t' && t'[es[k].auditId] == es[k]
    {
      if k < |front| {
        assert front[k] == es[k] && es[k].auditId != e.auditId;
      }
    }
  }

  lemma StillFree(t: Table, es: seq<Insert>)
    requires es != [] && DistinctIds(es) && es[|es| - 1].auditId !in t
    ensures es[|es| - 1].auditId !in Applied(t, es[..|es| - 1])
  {
    AppliedKeeps(t, es[..|es| - 1]);
  }

  /** On distinct ids none of which is taken, every event is stored as it is. */
  lemma {:induction false} AllStored(t: Table, es: seq<Insert>)
    requires DistinctIds(es) && forall k :: 0 <= k < |es| ==> es[k].auditId !in t
    ensures Stored(Applied(t, es), es)
    ensures |Applied(t, es)| == |t| + |es|
  {
    if es == [] {
    } else {
      AllStored(t, es[..|es| - 1]);
      StillFree(t, es);
      hide Stored;
      StoredSnoc(Applied(t, es[..|es| - 1]), es);
    }
  }

  /* ----- the whole backfill ----- */

  predicate DistinctRows(rows: seq<AuditRow>) {
    forall i, j :: 0 <= i < j < |rows| ==> rows[i].id != rows[j].id
  }

  lemma AuditKeyInjective(r: AuditRow, s: AuditRow)
    requires AuditKey(r) == AuditKey(s)
    ensures r.id == s.id
  {
    var n := |"backfill:audit_logs:"|;
    assert AuditKey(r)[n..] == r.id && AuditKey(s)[n..] == s.id;
  }

  /** `id` is the key of one of the rows. */
  predicate KeyOf(id: string, rows: seq<AuditRow>) {
    exists k :: 0 <= k < |rows| && AuditKey(rows[k]) == id
  }

  predicate AllKeyed(es: seq<Insert>, rows: seq<AuditRow>) {
    forall k :: 0 <= k < |es| ==> KeyOf(es[k].auditId, rows)
  }

  lemma KeyGrows(id: string, a: seq<AuditRow>, b: seq<AuditRow>)
    requires KeyOf(id, a)
    ensures KeyOf(id, a + b)
  {
    hide AuditKey;
    var k :| 0 <= k < |a| && AuditKey(a[k]) == id;
    assert AuditKey((a + b)[k]) == id;
  }

  lemma LastKeyIsNew(rows: seq<AuditRow>)
    requires rows != [] && DistinctRows(rows)
    ensures !KeyOf(AuditKey(rows[|rows| - 1]), rows[..|rows| - 1])
  {
    var front, r := rows[..|rows| - 1], rows[|rows| - 1];
    forall k | 0 <= k < |front|
      ensures AuditKey(front[k]) != AuditKey(r)
    {
      if AuditKey(front[k]) == AuditKey(r) {
        AuditKeyInjective(front[k], r);
      }
    }
  }

  /** One event per row at most, under the key of its row. */
  lemma {:induction false} UserKeys(rows: seq<AuditRow>, user: string, env: Products)
    requires DistinctRows(rows)
    ensures AllKeyed(UserInserts(rows, user, env), rows) && DistinctIds(UserInserts(rows, user, env))
  {
    if rows == [] {
    } else {
      hide EventOf, Sets, AuditKey, WellLabelled, Follow, KeyOf;
      var front, r := rows[..|rows| - 1], rows[|rows| - 1];
      UserKeys(front, user, env);
      PlanIsKnown(front, env);
      EventFollows(r, user, PlanAfter(front, env), env);
      hide AllKeyed, DistinctIds, DistinctRows, PlanAfter, UserInserts;
      UserInsertsSnoc(rows, user, env);
      KeysSnoc(rows, UserInserts(front, user, env), EventOf(r, user, PlanAfter(front, env), env));
    }
  }

  lemma UserInsertsSnoc(rows: seq<AuditRow>, user: string, env: Products)
    requires rows != []
    ensures var front, r := rows[..|rows| - 1], rows[|rows| - 1];
            UserInserts(rows, user, env) == UserInserts(front, user, env) + EventOf(r, user, PlanAfter(front, env), env)
  {
  }

  /** The last row adds at most one event, under its own key, which is new. */
  lemma KeysSnoc(rows: seq<AuditRow>, before: seq<Insert>, added: seq<Insert>)
    requires rows != [] && DistinctRows(rows)
    requires AllKeyed(before, rows[..|rows| - 1]) && DistinctIds(before)
    requires |added| <= 1 && (added != [] ==> added[0].auditId == AuditKey(rows[|rows| - 1]))
    ensures AllKeyed(before + added, rows) && DistinctIds(before + added)
  {
    hide AuditKey, KeyOf;
    var front, r := rows[..|rows| - 1], rows[|rows| - 1];
    LastKeyIsNew(rows);
    LastKey(rows);
    assert rows == front + [r];
    KeyedGrows(before, front, [r]);
    forall k | 0 <= k < |before|
      ensures before[k].auditId != AuditKey(r)
    {
      assert KeyOf(before[k].auditId, front);
    }
    IdsConcat(before, added);
  }

  lemma KeyedGrows(es: seq<Insert>, a: seq<AuditRow>, b: seq<AuditRow>)
    requires AllKeyed(es, a)
    ensures AllKeyed(es, a + b)
  {
    hide KeyOf;
    forall k | 0 <= k < |es|
      ensures KeyOf(es[k].auditId, a + b)
    {
      KeyGrows(es[k].auditId, a, b);
    }
  }

  lemma LastKey(rows: seq<AuditRow>)
    requires rows != []
    ensures KeyOf(AuditKey(rows[|rows| - 1]), rows)
  {
  }

  lemma {:induction false} OfIsPart(rows: seq<AuditRow>, user: string)
    requires DistinctRows(rows)
    ensures DistinctRows(Of(rows, user))
    ensures forall k :: 0 <= k < |Of(rows, user)| ==>
            Of(rows, user)[k] in rows && ResolveUserId(Of(rows, user)[k]) == Some(user)
  {
    if rows == [] {
    } else {
      hide ResolveUserId;
      var front, r := rows[..|rows| - 1], rows[|rows| - 1];
      OfIsPart(front, user);
      forall k | 0 <= k < |Of(front, user)|
        ensures Of(front, user)[k].id != r.id && Of(front, user)[k] in rows
      {
        var i :| 0 <= i < |front| && front[i] == Of(front, user)[k];
        assert rows[i].id != rows[|rows| - 1].id;
      }
    }
  }

  lemma SameIdSameRow(rows: seq<AuditRow>, r: AuditRow, s: AuditRow)
    requires DistinctRows(rows) && r in rows && s in rows && r.id == s.id
    ensures r == s
  {
    var i :| 0 <= i < |rows| && rows[i] == r;
    var j :| 0 <= j < |rows| && rows[j] == s;
  }

  /** Rows of different users have different keys. */
  lemma KeysApart(rows: seq<AuditRow>, u: string, v: string, id: string)
    requires DistinctRows(rows) && u != v && KeyOf(id, Of(rows, u))
    ensures !KeyOf(id, Of(rows, v))
  {
    OfIsPart(rows, u);
    OfIsPart(rows, v);
    hide Of, ResolveUserId;
    var a, b := Of(rows, u), Of(rows, v);
    var k :| 0 <= k < |a| && AuditKey(a[k]) == id;
    forall l | 0 <= l < |b|
      ensures AuditKey(b[l]) != id
    {
      if AuditKey(b[l]) == id {
        AuditKeyInjective(a[k], b[l]);
        SameIdSameRow(rows, a[k], b[l]);
      }
    }
  }

  predicate KeyOfSome(id: string, users: seq<string>, rows: seq<AuditRow>) {
    exists i :: 0 <= i < |users| && KeyOf(id, Of(rows, users[i]))
  }

  lemma KeyOfSomeGrows(id: string, users: seq<string>, u: string, rows: seq<AuditRow>)
    ensures KeyOfSome(id, users, rows) || KeyOf(id, Of(rows, u)) ==> KeyOfSome(id, users + [u], rows)
  {
    hide KeyOf, Of;
    var all := users + [u];
    assert all[|users|] == u;
    if KeyOfSome(id, users, rows) {
      var i :| 0 <= i < |users| && KeyOf(id, Of(rows, users[i]));
      assert KeyOf(id, Of(rows, all[i]));
    }
  }

  lemma KeyOfOthers(id: string, users: seq<string>, u: string, rows: seq<AuditRow>)
    requires DistinctRows(rows) && u !in users && KeyOfSome(id, users, rows)
    ensures !KeyOf(id, Of(rows, u))
  {
    hide KeyOf, Of;
    var i :| 0 <= i < |users| && KeyOf(id, Of(rows, users[i]));
    KeysApart(rows, users[i], u, id);
  }

  /** The key of each event belongs to a row of one of the users, and no key is used twice. */
  lemma {:induction false} AllKeysDistinct(users: seq<string>, rows: seq<AuditRow>, env: Products)
    requires DistinctRows(rows) && forall i, j :: 0 <= i < j < |users| ==> users[i] != users[j]
    ensures DistinctIds(InsertsOf(users, rows, env))
    ensures forall k :: 0 <= k < |InsertsOf(users, rows, env)| ==>
            KeyOfSome(InsertsOf(users, rows, env)[k].auditId, users, rows)
  {
    hide InsertsOf, UserInserts, Of, KeyOf, KeyOfSome;
    if users == [] {
      NobodyInserts(rows, env);
    } else {
      var front, u := users[..|users| - 1], users[|users| - 1];
      assert users == front + [u] && u !in front;
      AllKeysDistinct(front, rows, env);
      InsertsOfSnoc(users, rows, env);
      OfIsPart(rows, u);
      UserKeys(Of(rows, u), u, env);
      var before, added := InsertsOf(front, rows, env), UserInserts(Of(rows, u), u, env);
      forall k | 0 <= k < |before|
        ensures !KeyOf(before[k].auditId, Of(rows, u)) && KeyOfSome(before[k].auditId, users, rows)
      {
        KeyOfOthers(before[k].auditId, front, u, rows);
        KeyOfSomeGrows(before[k].auditId, front, u, rows);
      }
      forall l | 0 <= l < |added|
        ensures KeyOf(added[l].auditId, Of(rows, u)) && KeyOfSome(added[l].auditId, users, rows)
      {
        KeyOfSomeGrows(added[l].auditId, front, u, rows);
      }
      IdsConcat(before, added);
    }
  }

  lemma NobodyInserts(rows: seq<AuditRow>, env: Products)
    ensures InsertsOf([], rows, env) == []
  {
  }

  lemma IdsConcat(a: seq<Insert>, b: seq<Insert>)
    requires DistinctIds(a) && DistinctIds(b)
    requires forall k, l :: 0 <= k < |a| && 0 <= l < |b| ==> a[k].auditId != b[l].auditId
    ensures DistinctIds(a + b)
  {
  }

  /** On a table with no backfilled row yet, the backfill stores every event it computes, and a second run none. */
  lemma BackfillStoresAll(rows: seq<AuditRow>, env: Products, t: Table)
    requires DistinctRows(rows) && forall k :: 0 <= k < |Inserts(rows, env)| ==> Inserts(rows, env)[k].auditId !in t
    ensures Stored(Applied(t, Inserts(rows, env)), Inserts(rows, env))
    ensures |Applied(t, Inserts(rows, env))| == |t| + |Inserts(rows, env)|
    ensures Applied(Applied(t, Inserts(rows, env)), Inserts(rows, env)) == Applied(t, Inserts(rows, env))
  {
    hide InsertsOf, UserInserts, Of, KeyOf;
    UsersAreOfRows(rows);
    AllKeysDistinct(Users(rows), rows, env);
    AllStored(t, Inserts(rows, env));
    ApplyTwice(t, Inserts(rows, env));
  }

  /* ----- a scoped backfill before the full one ----- */

  lemma {:induction false} AppliedValue(t: Table, es: seq<Insert>, id: string)
    requires id in Applied(t, es)
    ensures (id in t && Applied(t, es)[id] == t[id])
            || exists k :: 0 <= k < |es| && es[k].auditId == id && Applied(t, es)[id] == es[k]
  {
    if es == [] {
    } else {
      var front, e := es[..|es| - 1], es[|es| - 1];
      if id in Applied(t, front) {
        AppliedValue(t, front, id);
        if !(id in t && Applied(t, es)[id] == t[id]) {
          var k :| 0 <= k < |front| && front[k].auditId == id && Applied(t, front)[id] == front[k];
          assert es[k] == front[k];
        }
      } else {
        assert es[|es| - 1] == e;
      }
    }
  }

  lemma {:induction false} KeepPart(es: seq<Insert>, user: string)
    ensures forall k :: 0 <= k < |Keep(es, user)| ==> Keep(es, user)[k] in es
  {
    if es == [] {
    } else {
      KeepPart(es[..|es| - 1], user);
      assert forall e :: e in es[..|es| - 1] ==> e in es;
    }
  }

  /** Storing part of the events first, and then all of them, is storing all of them. */
  lemma PartFirst(t: Table, part: seq<Insert>, es: seq<Insert>)
    requires DistinctIds(es) && forall k :: 0 <= k < |es| ==> es[k].auditId !in t
    requires forall k :: 0 <= k < |part| ==> part[k] in es
    ensures Applied(Applied(t, part), es) == Applied(t, es)
  {
    hide Applied, DistinctIds;
    forall id | id in Applied(Applied(t, part), es) || id in Applied(t, es)
      ensures id in Applied(Applied(t, part), es) && id in Applied(t, es)
      ensures Applied(Applied(t, part), es)[id] == Applied(t, es)[id]
    {
      if id in t {
        AppliedKeeps(t, part);
        AppliedKeeps(Applied(t, part), es);
        AppliedKeeps(t, es);
      } else {
        KeyIsOfEvent(t, part, es, id);
        var k :| 0 <= k < |es| && es[k].auditId == id;
        EventIsStored(t, part, es, k);
        EventIsStored(t, [], es, k);
        assert Applied(t, []) == t by { NothingApplied(t); }
      }
    }
  }

  lemma NothingApplied(t: Table)
    ensures Applied(t, []) == t
  {
  }

  /** Whatever part of the events was stored before, the event is stored under its key. */
  lemma EventIsStored(t: Table, part: seq<Insert>, es: seq<Insert>, k: nat)
    requires DistinctIds(es) && k < |es| && es[k].auditId !in t
    requires forall j :: 0 <= j < |part| ==> part[j] in es
    ensures es[k].auditId in Applied(Applied(t, part), es) && Applied(Applied(t, part), es)[es[k].auditId] == es[k]
  {
    hide Applied, DistinctIds;
    var id, mid := es[k].auditId, Applied(t, part);
    AppliedKeeps(mid, es);
    AppliedValue(mid, es, id);
    if id in mid && Applied(mid, es)[id] == mid[id] {
      AppliedValue(t, part, id);
    }
    SameIdSameEvent(es, k, Applied(mid, es)[id]);
  }

  lemma KeyIsOfEvent(t: Table, part: seq<Insert>, es: seq<Insert>, id: string)
    requires id !in t && (id in Applied(Applied(t, part), es) || id in Applied(t, es))
    requires forall k :: 0 <= k < |part| ==> part[k] in es
    ensures exists k :: 0 <= k < |es| && es[k].auditId == id
  {
    AppliedKeeps(t, part);
    AppliedKeeps(t, es);
    AppliedKeeps(Applied(t, part), es);
    if id in Applied(t, part) {
      var k :| 0 <= k < |part| && part[k].auditId == id;
      assert part[k] in es;
    }
  }

  lemma SameIdSameEvent(es: seq<Insert>, k: nat, e: Insert)
    requires DistinctIds(es) && k < |es| && e in es && e.auditId == es[k].auditId
    ensures e == es[k]
  {
    var j :| 0 <= j < |es| && es[j] == e;
  }

  /** A backfill for one user first and the full one later leave the table that the full one alone leaves. */
  lemma ScopedThenFull(rows: seq<AuditRow>, user: string, env: Products, t: Table)
    requires AllAsWritten(rows) && DistinctRows(rows)
    requires forall k :: 0 <= k < |Inserts(rows, env)| ==> Inserts(rows, env)[k].auditId !in t
    ensures Applied(Applied(t, Inserts(Scoped(rows, user), env)), Inserts(rows, env)) == Applied(t, Inserts(rows, env))
  {
    hide InsertsOf, UserInserts, Of, KeyOf, Applied, AsWritten, Keep, Scoped, DistinctIds;
    UsersAreOfRows(rows);
    AllKeysDistinct(Users(rows), rows, env);
    ScopedRunIsOwn(rows, user, env);
    KeepPart(Inserts(rows, env), user);
    PartFirst(t, Inserts(Scoped(rows, user), env), Inserts(rows, env));
  }
}
