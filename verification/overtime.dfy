/**
 * The overtime rule endpoints. Every management endpoint is for admins
 * alone, managers included among those refused; the list of active rules is
 * open to anyone signed in.
 */
module OvertimeRules {
  import opened Wrappers
  import opened Rows
  import opened Sorting
  import opened Roles
  import opened Text

  /** A row of the overtime_rules table; `multiplier` is in hundredths (the decimal(3,2) column). */
  datatype OvertimeRule = OvertimeRule(id: nat, name: string, kind: string, multiplier: nat, description: Option<string>, isActive: bool)

  /** A reply of the overtime rule endpoints; `Invalid` is the validator's 422. */
  datatype Reply =
    | Shown(status: nat, rule: OvertimeRule)
    | Listing(rules: seq<OvertimeRule>)
    | Deleted(message: string)
    | Invalid
    | Refused(status: nat, message: string)

  const Unauthorized: string := "Unauthorized"

  function RuleKey(r: OvertimeRule): nat
  {
    r.id
  }

  function ByName(r: OvertimeRule): seq<int>
  {
    TextKey(r.name)
  }

  /** The rule types the validator accepts. */
  predicate KnownKind(kind: string)
  {
    kind == "weekday_evening" || kind == "weekend" || kind == "holiday" || kind == "night_shift"
  }

  /** The validator's multiplier rule: at least 1, that is 100 hundredths. */
  predicate ValidMultiplier(multiplier: nat)
  {
    multiplier >= 100
  }

  /** The row holding `id`, as route-model binding finds it. */
  function RuleById(store: seq<OvertimeRule>, id: nat): (r: Option<OvertimeRule>)
    ensures r.Some? ==> r.value in store && r.value.id == id
    ensures r.None? <==> forall x :: x in store ==> x.id != id
  {
    First(store, (x: OvertimeRule) => x.id == id)
  }

  /** The filters of `index`, each applied only when given. */
  predicate RuleListed(isActive: Option<bool>, kind: Option<string>, r: OvertimeRule)
  {
    (isActive.Some? ==> r.isActive == isActive.value) && (kind.Some? ==> r.kind == kind.value)
  }

  /** `index`: admins only; the rules passing the given filters, ordered by name. */
  function Index(store: seq<OvertimeRule>, caller: User, isActive: Option<bool>, kind: Option<string>): (reply: Reply)
    ensures !IsAdmin(caller) <==> reply == Refused(403, Unauthorized)
    ensures reply.Listing? ==>
            (forall x :: x in reply.rules <==> x in store && RuleListed(isActive, kind, x))
            && multiset(reply.rules) == multiset(Filter(store, x => RuleListed(isActive, kind, x)))
            && SortedBy(reply.rules, ByName)
    ensures reply.Listing? || reply.Refused?
  {
    if !IsAdmin(caller) then Refused(403, Unauthorized)
    else Listing(SortBy(Filter(store, x => RuleListed(isActive, kind, x)), ByName))
  }

  /** `getActiveRules`: no role check; exactly the active rules, ordered by name. */
  function ActiveRules(store: seq<OvertimeRule>): (rules: seq<OvertimeRule>)
    ensures forall x :: x in rules <==> x in store && x.isActive
    ensures SortedBy(rules, ByName)
  {
    SortBy(Filter(store, (x: OvertimeRule) => x.isActive), ByName)
  }

  /** An admin's index filtered on `is_active = true` is the list of active rules. */
  lemma ActiveRulesAreFilteredIndex(store: seq<OvertimeRule>, caller: User)
    requires IsAdmin(caller)
    ensures Index(store, caller, Some(true), None) == Listing(ActiveRules(store))
  {
    FilterCongruent(store, x => RuleListed(Some(true), None, x), (x: OvertimeRule) => x.isActive);
  }

  /** The body of a creation request; `isActive` defaults to the column's default, true. */
  datatype CreateRequest = CreateRequest(name: string, kind: string, multiplier: nat, description: Option<string>, isActive: Option<bool>)

  /** The creation validator: a name of 1 to 255 characters, a known type, a multiplier of at least 1. */
  predicate ValidCreate(req: CreateRequest)
  {
    ShortText(req.name) && KnownKind(req.kind) && ValidMultiplier(req.multiplier)
  }

  /** `store`: admins only, then the validator; adds one rule under the next id. */
  function StoreRule(store: seq<OvertimeRule>, caller: User, req: CreateRequest): (result: (seq<OvertimeRule>, Reply))
    ensures !IsAdmin(caller) <==> result == (store, Refused(403, Unauthorized))
    ensures IsAdmin(caller) && !ValidCreate(req) <==> result == (store, Invalid)
    ensures result.1.Shown? <==> IsAdmin(caller) && ValidCreate(req)
    ensures result.1.Shown? ==>
            var r := result.1.rule;
            result.1.status == 201 && result.0 == store + [r] && (forall x :: x in store ==> x.id < r.id)
            && r.name == req.name && r.kind == req.kind && ShortText(r.name) && KnownKind(r.kind) && ValidMultiplier(r.multiplier)
            && r.multiplier == req.multiplier && r.description == req.description && r.isActive == req.isActive.GetOr(true)
    ensures result.0 == store || result.1.Shown?
  {
    if !IsAdmin(caller) then (store, Refused(403, Unauthorized))
    else if !ValidCreate(req) then (store, Invalid)
    else
      var r := OvertimeRule(NextKey(store, RuleKey), req.name, req.kind, req.multiplier, req.description, req.isActive.GetOr(true));
      (store + [r], Shown(201, r))
  }

  /** `show`: 404 for an unknown id, otherwise admins only. */
  function ShowRule(store: seq<OvertimeRule>, caller: User, id: nat): (reply: Reply)
    ensures RuleById(store, id).None? ==> reply == Refused(404, "Not Found")
    ensures RuleById(store, id).Some? ==> reply == if IsAdmin(caller) then Shown(200, RuleById(store, id).value) else Refused(403, Unauthorized)
  {
    match RuleById(store, id)
    case None => Refused(404, "Not Found")
    case Some(r) => if !IsAdmin(caller) then Refused(403, Unauthorized) else Shown(200, r)
  }

  /** The fields an edit may send; absent fields keep their stored values. */
  datatype EditRequest = EditRequest(name: Option<string>, kind: Option<string>, multiplier: Option<nat>, description: Field<string>, isActive: Option<bool>)

  /** The validator's rules for an edit: a sent name has 1 to 255 characters, a sent type is known and a sent multiplier is at least 1. */
  predicate ValidEdit(req: EditRequest)
  {
    (req.name.Some? ==> ShortText(req.name.value)) && (req.kind.Some? ==> KnownKind(req.kind.value)) && (req.multiplier.Some? ==> ValidMultiplier(req.multiplier.value))
  }

  /** `update`: 404 for an unknown id, 403 unless admin, 422 for a bad field; else the fields are written in place. */
  function UpdateRule(store: seq<OvertimeRule>, caller: User, id: nat, req: EditRequest): (result: (seq<OvertimeRule>, Reply))
    ensures RuleById(store, id).None? ==> result == (store, Refused(404, "Not Found"))
    ensures RuleById(store, id).Some? && !IsAdmin(caller) ==> result == (store, Refused(403, Unauthorized))
    ensures RuleById(store, id).Some? && IsAdmin(caller) && !ValidEdit(req) ==> result == (store, Invalid)
    ensures result.1.Shown? <==> RuleById(store, id).Some? && IsAdmin(caller) && ValidEdit(req)
    ensures result.1.Shown? ==>
            var stored := RuleById(store, id).value;
            var r := result.1.rule;
            result.1.status == 200 && result.0 == ReplaceKeyed(store, RuleKey, r)
            && r.id == id && r.name == req.name.GetOr(stored.name) && r.kind == req.kind.GetOr(stored.kind)
            && r.multiplier == req.multiplier.GetOr(stored.multiplier) && r.description == req.description.Assign(stored.description)
            && r.isActive == req.isActive.GetOr(stored.isActive)
    ensures result.0 == store || result.1.Shown?
  {
    match RuleById(store, id)
    case None => (store, Refused(404, "Not Found"))
    case Some(stored) =>
      if !IsAdmin(caller) then (store, Refused(403, Unauthorized))
      else if !ValidEdit(req) then (store, Invalid)
      else
        var r := OvertimeRule(id, req.name.GetOr(stored.name), req.kind.GetOr(stored.kind), req.multiplier.GetOr(stored.multiplier),
                              req.description.Assign(stored.description), req.isActive.GetOr(stored.isActive));
        (ReplaceKeyed(store, RuleKey, r), Shown(200, r))
  }

  /** An edit keeps every rule valid when all rules were valid before. */
  lemma UpdateKeepsRulesValid(store: seq<OvertimeRule>, caller: User, id: nat, req: EditRequest)
    requires forall x :: x in store ==> ShortText(x.name) && KnownKind(x.kind) && ValidMultiplier(x.multiplier)
    ensures forall x :: x in UpdateRule(store, caller, id, req).0 ==> ShortText(x.name) && KnownKind(x.kind) && ValidMultiplier(x.multiplier)
  {
    var (after, reply) := UpdateRule(store, caller, id, req);
    if reply.Shown? {
      forall x | x in after
        ensures ShortText(x.name) && KnownKind(x.kind) && ValidMultiplier(x.multiplier)
      {
        var i :| 0 <= i < |after| && after[i] == x;
        assert x == reply.rule || x == store[i];
      }
    }
  }

  /** `destroy`: 404 for an unknown id, 403 unless admin; otherwise the rule is gone. */
  function DestroyRule(store: seq<OvertimeRule>, caller: User, id: nat): (result: (seq<OvertimeRule>, Reply))
    ensures RuleById(store, id).None? ==> result == (store, Refused(404, "Not Found"))
    ensures RuleById(store, id).Some? && !IsAdmin(caller) ==> result == (store, Refused(403, Unauthorized))
    ensures result.1.Deleted? <==> RuleById(store, id).Some? && IsAdmin(caller)
    ensures result.1.Deleted? ==>
            result.1.message == "Overtime rule deleted" && forall x :: x in result.0 <==> x in store && x.id != id
  {
    match RuleById(store, id)
    case None => (store, Refused(404, "Not Found"))
    case Some(_) =>
      if !IsAdmin(caller) then (store, Refused(403, Unauthorized))
      else (Filter(store, (x: OvertimeRule) => x.id != id), Deleted("Overtime rule deleted"))
  }

  /** Managers are refused by every management endpoint, yet may read the active rules. */
  lemma ManagersRefused(store: seq<OvertimeRule>, caller: User, id: nat, create: CreateRequest, edit: EditRequest)
    requires IsManager(caller) && RuleById(store, id).Some?
    ensures Index(store, caller, None, None) == Refused(403, Unauthorized)
    ensures StoreRule(store, caller, create) == (store, Refused(403, Unauthorized))
    ensures ShowRule(store, caller, id) == Refused(403, Unauthorized)
    ensures UpdateRule(store, caller, id, edit) == (store, Refused(403, Unauthorized))
    ensures DestroyRule(store, caller, id) == (store, Refused(403, Unauthorized))
  {
    RolesExclusive(caller);
  }
}
