/**
 * The account record of the store, the merge of a partial update into it,
 * the field validation rules, and the uniqueness of ids, all as values.
 */
module Accounts {
  import opened Text
  import opened Labels

  datatype Option<T> = None | Some(value: T)

  datatype AccountType = LDAP | Local

  /** The fields validation reports on: the keys of an account's `errors`. */
  datatype Field = LabelRawField | LoginField | PasswordField

  /**
   * One form entry. `errors` maps a field to whether it failed validation;
   * a field without a key has no known error.
   */
  datatype Account = Account(
    id: int,
    labelRaw: string,
    labels: seq<Label>,
    accountType: AccountType,
    login: string,
    password: string,
    isValid: bool,
    errors: map<Field, bool>)

  /**
   * The record `addAccount` appends: type `Local`, every text empty, no
   * labels, no errors recorded yet, not valid. Its labels agree with its
   * `labelRaw`, and its `isValid` is what validation would conclude.
   */
  function NewAccount(id: int): (r: Account)
    ensures r.id == id && r.accountType == Local && r.errors == map[]
    ensures r.labelRaw == [] && r.labels == [] && r.login == [] && r.password == [] && !r.isValid
    ensures LabelsConsistent(r)
    ensures r.isValid == Validated(r).isValid
  {
    Account(id, [], [], Local, [], [], false, map[])
  }

  // ---------------------------------------------------------------------
  // Partial updates

  /**
   * The `labelRaw` key of a patch: missing, present with the value
   * `undefined`, or present with a string.
   */
  datatype LabelRawPatch = Missing | Undefined | Given(raw: string)

  /**
   * A `Partial<Account>` as `updateAccount` receives it. Every key it may
   * carry that outlives the update is here, including `id` and `label`,
   * which the merge overwrites like any other field.
   */
  datatype Patch = Patch(
    id: Option<int>,
    labelRaw: LabelRawPatch,
    labels: Option<seq<Label>>,
    accountType: Option<AccountType>,
    login: Option<string>,
    password: Option<string>)

  /**
   * The string stored for a present `labelRaw` key: the normalised string,
   * or the empty string when the value is `undefined`.
   */
  function CleanedLabelRaw(p: LabelRawPatch): (r: string)
    requires !p.Missing?
    ensures p.Given? ==> (r == [] <==> Pieces(p.raw) == [])
    ensures p.Given? && r != [] ==> Split(r) == Pieces(p.raw)
    ensures p.Undefined? ==> r == []
  {
    match p
    case Undefined => []
    case Given(raw) => NormalizeLabelRaw(raw)
  }

  /**
   * `Object.assign(account, data)` for the keys left in the patch: each
   * carried key's value is stored, and fields the patch has no key for
   * (`labelRaw` among them, its key being deleted before) keep their values.
   */
  function Assign(a: Account, p: Patch): (r: Account)
    ensures p.id.Some? ==> r.id == p.id.value
    ensures p.labels.Some? ==> r.labels == p.labels.value
    ensures p.accountType.Some? ==> r.accountType == p.accountType.value
    ensures p.login.Some? ==> r.login == p.login.value
    ensures p.password.Some? ==> r.password == p.password.value
    ensures p.id.None? ==> r.id == a.id
    ensures p.labels.None? ==> r.labels == a.labels
    ensures p.accountType.None? ==> r.accountType == a.accountType
    ensures p.login.None? ==> r.login == a.login
    ensures p.password.None? ==> r.password == a.password
    ensures p.id.None? && p.labels.None? && p.accountType.None? && p.login.None? && p.password.None?
            ==> r == a
    ensures r.labelRaw == a.labelRaw && r.isValid == a.isValid && r.errors == a.errors
  {
    a.(id := if p.id.Some? then p.id.value else a.id,
       labels := if p.labels.Some? then p.labels.value else a.labels,
       accountType := if p.accountType.Some? then p.accountType.value else a.accountType,
       login := if p.login.Some? then p.login.value else a.login,
       password := if p.password.Some? then p.password.value else a.password)
  }

  /**
   * The record after the field changes of `updateAccount`, before it is
   * validated: a present `labelRaw` is cleaned and its labels derived, then
   * every other present key overwrites its field. A `label` in the patch
   * therefore wins over the derived one; fields whose keys are missing
   * keep their values, and `isValid` and `errors` are left to validation.
   */
  function ApplyPatch(a: Account, p: Patch): (r: Account)
    ensures r.id == (if p.id.Some? then p.id.value else a.id)
    ensures r.labelRaw == (if p.labelRaw.Missing? then a.labelRaw else CleanedLabelRaw(p.labelRaw))
    ensures r.labels == (if p.labels.Some? then p.labels.value
                        else if p.labelRaw.Missing? then a.labels
                        else DeriveLabels(r.labelRaw))
    ensures r.accountType == (if p.accountType.Some? then p.accountType.value else a.accountType)
    ensures r.login == (if p.login.Some? then p.login.value else a.login)
    ensures r.password == (if p.password.Some? then p.password.value else a.password)
    ensures r.isValid == a.isValid && r.errors == a.errors
  {
    var cleaned :=
      if p.labelRaw.Missing? then a
      else
        var raw := CleanedLabelRaw(p.labelRaw);
        a.(labelRaw := raw, labels := DeriveLabels(raw));
    Assign(cleaned, p)
  }

  /** The merge done in two steps, as `updateAccount` does it: clean first, then assign. */
  lemma ApplyPatchInSteps(a: Account, p: Patch, cleaned: Account)
    requires p.labelRaw.Missing? ==> cleaned == a
    requires !p.labelRaw.Missing? ==>
               cleaned == a.(labelRaw := CleanedLabelRaw(p.labelRaw),
                             labels := DeriveLabels(CleanedLabelRaw(p.labelRaw)))
    ensures Assign(cleaned, p) == ApplyPatch(a, p)
  {
  }

  // ---------------------------------------------------------------------
  // Validation

  const MAX_LABEL_RAW_LENGTH: nat := 50
  const MAX_LOGIN_LENGTH: nat := 100
  const MAX_PASSWORD_LENGTH: nat := 100

  /** The error flags `validateAccount` computes, one per field. */
  function FieldErrors(a: Account): (e: map<Field, bool>)
    ensures e.Keys == {LabelRawField, LoginField, PasswordField}
  {
    map[LabelRawField := !(|a.labelRaw| > 0 && |a.labelRaw| <= MAX_LABEL_RAW_LENGTH),
        LoginField := !(|a.login| > 0 && |a.login| <= MAX_LOGIN_LENGTH),
        PasswordField := if a.accountType == Local
                         then !(|a.password| > 0 && |a.password| <= MAX_PASSWORD_LENGTH)
                         else false]
  }

  /**
   * The record after `validateAccount`: its flags and validity recomputed.
   * The flags it records describe its own fields, and its id is untouched.
   * `ValidatedMeaning` gives each flag, `isValid` and the fields kept.
   */
  function Validated(a: Account): (r: Account)
    ensures r.errors == FieldErrors(r)
    ensures r.id == a.id
  {
    var e := FieldErrors(a);
    a.(errors := e, isValid := !e[LabelRawField] && !e[LoginField] && !e[PasswordField])
  }

  /**
   * What validation concludes, field by field: `labelRaw` must have 1 to 50
   * characters, `login` 1 to 100, and `password` 1 to 100 for a `Local`
   * account while an `LDAP` account's password is never flagged; the
   * account is valid exactly when no flag is raised. Nothing but `errors`
   * and `isValid` changes.
   */
  lemma ValidatedMeaning(a: Account)
    ensures var v := Validated(a);
      && v.errors.Keys == {LabelRawField, LoginField, PasswordField}
      && (v.errors[LabelRawField] <==> |a.labelRaw| == 0 || |a.labelRaw| > 50)
      && (v.errors[LoginField] <==> |a.login| == 0 || |a.login| > 100)
      && (a.accountType == LDAP ==> !v.errors[PasswordField])
      && (a.accountType == Local ==> (v.errors[PasswordField] <==> |a.password| == 0 || |a.password| > 100))
      && (v.isValid <==> 1 <= |a.labelRaw| <= 50 && 1 <= |a.login| <= 100
                         && (a.accountType == Local ==> 1 <= |a.password| <= 100))
      && v.(isValid := a.isValid, errors := a.errors) == a
  {
  }

  /** Validating twice in a row gives what validating once gives. */
  lemma ValidatedIdempotent(a: Account)
    ensures Validated(Validated(a)) == Validated(a)
  {
  }

  /**
   * A record just added fails validation on every field, in line with the
   * `isValid = false` it is created with.
   */
  lemma NewAccountFailsValidation(id: int)
    ensures var v := Validated(NewAccount(id));
      !v.isValid && v.errors[LabelRawField] && v.errors[LoginField] && v.errors[PasswordField]
  {
  }

  /**
   * The two limits of 50 differ: normalisation keeps up to 50 labels, while
   * validation allows up to 50 characters. A single label longer than 50
   * characters is stored unchanged and then flagged.
   */
  lemma NormalizedLabelRawCanFailValidation(a: Account, raw: string)
    requires IsLabelText(raw) && |raw| > MAX_LABEL_RAW_LENGTH
    ensures var v := Validated(ApplyPatch(a, Patch(None, Given(raw), None, None, None, None)));
      v.labelRaw == raw && v.errors[LabelRawField] && !v.isValid
  {
    SingleLabelIsNormal(raw);
    var applied := ApplyPatch(a, Patch(None, Given(raw), None, None, None, None));
    assert applied.labelRaw == raw;
    ValidatedMeaning(applied);
  }

  // ---------------------------------------------------------------------
  // Label consistency

  /** `label` is what the store derives from `labelRaw`. */
  predicate LabelsConsistent(a: Account) {
    a.labels == DeriveLabels(a.labelRaw)
  }

  /**
   * After a present `labelRaw`, the stored `labelRaw` is the surviving
   * pieces joined by `;` (at most 50, none empty, none holding `;`), and,
   * unless the patch also carries `label`, the labels are exactly those
   * pieces in order.
   */
  lemma LabelRawPatchResult(a: Account, p: Patch)
    requires p.labelRaw.Given?
    ensures var r := ApplyPatch(a, p);
      var pieces := Pieces(p.labelRaw.raw);
      && r.labelRaw == Join(pieces)
      && |pieces| <= MAX_LABELS
      && (forall i :: 0 <= i < |pieces| ==> pieces[i] != [] && SEPARATOR !in pieces[i])
      && (p.labels.None? ==> Texts(r.labels) == pieces && (r.labels == [] <==> r.labelRaw == []))
  {
    LabelsAreSurvivingPieces(p.labelRaw.raw);
  }

  /**
   * Feeding a stored `labelRaw` back through the same update changes
   * nothing: the record is the same afterwards.
   */
  lemma LabelRawPatchIdempotent(a: Account, raw: string)
    ensures var once := ApplyPatch(a, Patch(None, Given(raw), None, None, None, None));
      ApplyPatch(once, Patch(None, Given(once.labelRaw), None, None, None, None)) == once
  {
    NormalizeIdempotent(raw);
  }

  /**
   * An update without a `label` key keeps `label` derived from `labelRaw`:
   * a present `labelRaw` re-derives it, a missing one leaves both alone.
   */
  lemma UpdateKeepsLabelsConsistent(a: Account, p: Patch)
    requires LabelsConsistent(a) || !p.labelRaw.Missing?
    requires p.labels.None?
    ensures LabelsConsistent(Validated(ApplyPatch(a, p)))
  {
  }

  /** A `label` key in the patch breaks that link: the merge stores it as given. */
  lemma LabelKeyBreaksConsistency()
    ensures var a := NewAccount(1);
      LabelsConsistent(a)
      && !LabelsConsistent(ApplyPatch(a, Patch(None, Missing, Some([Label("x")]), None, None, None)))
  {
  }

  // ---------------------------------------------------------------------
  // Ids

  /** No two records share an id. */
  predicate IdsDistinct(accounts: seq<Account>) {
    forall i, j :: 0 <= i < j < |accounts| ==> accounts[i].id != accounts[j].id
  }

  /** Every id is below the next one to be handed out. */
  predicate IdsBelow(accounts: seq<Account>, counter: int) {
    forall i :: 0 <= i < |accounts| ==> accounts[i].id < counter
  }

  /** The id invariant of the store. */
  predicate IdInvariant(accounts: seq<Account>, counter: int) {
    IdsDistinct(accounts) && IdsBelow(accounts, counter)
  }

  predicate HasId(accounts: seq<Account>, id: int) {
    exists i :: 0 <= i < |accounts| && accounts[i].id == id
  }

  /**
   * `Math.max(...accounts.map(acc => acc.id))` for a non-empty list: an id
   * that occurs, and no id is larger.
   */
  function MaxId(accounts: seq<Account>): (m: int)
    requires accounts != []
    ensures HasId(accounts, m)
    ensures forall i :: 0 <= i < |accounts| ==> accounts[i].id <= m
  {
    if |accounts| == 1 then accounts[0].id
    else
      var rest := MaxId(accounts[1..]);
      if accounts[0].id >= rest then accounts[0].id else rest
  }

  /** Loading sets the counter one past the largest id, above every id. */
  lemma LoadedCounterAboveIds(accounts: seq<Account>)
    requires accounts != []
    ensures IdsBelow(accounts, MaxId(accounts) + 1)
  {
  }

  /**
   * The list `removeAccount` leaves: the first record with the id is gone,
   * the rest keep their order.
   */
  function RemoveFirst(accounts: seq<Account>, id: int): (r: seq<Account>)
    ensures |r| == if HasId(accounts, id) then |accounts| - 1 else |accounts|
    ensures forall i :: 0 <= i < |r| ==> r[i] in accounts
  {
    if accounts == [] then []
    else if accounts[0].id == id then accounts[1..]
    else
      assert HasId(accounts, id) <==> HasId(accounts[1..], id);
      [accounts[0]] + RemoveFirst(accounts[1..], id)
  }

  /**
   * When the first record carrying `id` sits at `k`, removal splices out
   * exactly that record.
   */
  lemma {:induction false} RemoveFirstAt(accounts: seq<Account>, id: int, k: nat)
    requires k < |accounts| && accounts[k].id == id
    requires forall j :: 0 <= j < k ==> accounts[j].id != id
    ensures RemoveFirst(accounts, id) == accounts[..k] + accounts[k + 1..]
  {
    if k > 0 {
      var tail := accounts[1..];
      calc {
        RemoveFirst(accounts, id);
        { assert accounts[0].id != id; }
        [accounts[0]] + RemoveFirst(tail, id);
        { RemoveFirstAt(tail, id, k - 1); }
        [accounts[0]] + (tail[..k - 1] + tail[k..]);
        { assert tail[..k - 1] == accounts[1..k] && tail[k..] == accounts[k + 1..]; }
        [accounts[0]] + (accounts[1..k] + accounts[k + 1..]);
        { assert accounts[..k] == [accounts[0]] + accounts[1..k]; }
        accounts[..k] + accounts[k + 1..];
      }
    }
  }

  /** With no record carrying `id`, removal leaves the list as it was. */
  lemma {:induction false} RemoveFirstAbsent(accounts: seq<Account>, id: int)
    requires !HasId(accounts, id)
    ensures RemoveFirst(accounts, id) == accounts
  {
    if accounts != [] {
      forall i | 0 <= i < |accounts[1..]|
        ensures accounts[1..][i].id != id
      {
        assert accounts[1..][i] == accounts[i + 1];
      }
      RemoveFirstAbsent(accounts[1..], id);
    }
  }

  /** Adding a record with the counter's id and bumping the counter keeps the invariant. */
  lemma AddKeepsIdInvariant(accounts: seq<Account>, counter: int)
    requires IdInvariant(accounts, counter)
    ensures IdInvariant(accounts + [NewAccount(counter)], counter + 1)
  {
  }

  /** Removing a record keeps the invariant. */
  lemma {:induction false} RemoveKeepsIdInvariant(accounts: seq<Account>, counter: int, id: int)
    requires IdInvariant(accounts, counter)
    ensures IdInvariant(RemoveFirst(accounts, id), counter)
  {
    var r := RemoveFirst(accounts, id);
    if accounts != [] && accounts[0].id != id {
      RemoveKeepsIdInvariant(accounts[1..], counter, id);
      var tail := RemoveFirst(accounts[1..], id);
      assert r == [accounts[0]] + tail;
      forall j | 0 <= j < |tail|
        ensures tail[j].id != accounts[0].id
      {
        var m :| 0 <= m < |accounts[1..]| && accounts[1..][m] == tail[j];
        assert accounts[m + 1] == tail[j];
      }
    }
  }

  /** Validating a record keeps the invariant: ids are not touched. */
  lemma ValidateKeepsIdInvariant(accounts: seq<Account>, counter: int, index: nat)
    requires IdInvariant(accounts, counter) && index < |accounts|
    ensures IdInvariant(accounts[index := Validated(accounts[index])], counter)
  {
  }

  /** An update whose patch carries no `id` keeps the invariant. */
  lemma UpdateKeepsIdInvariant(accounts: seq<Account>, counter: int, index: nat, p: Patch)
    requires IdInvariant(accounts, counter) && index < |accounts|
    requires p.id.None?
    ensures IdInvariant(accounts[index := Validated(ApplyPatch(accounts[index], p))], counter)
  {
  }

  /**
   * An update whose patch carries an `id` can break the invariant: giving
   * the second of two records the first one's id.
   */
  lemma IdKeyBreaksIdInvariant()
    ensures var accounts := [NewAccount(1), NewAccount(2)];
      var p := Patch(Some(1), Missing, None, None, None, None);
      IdInvariant(accounts, 3)
      && !IdInvariant(accounts[1 := Validated(ApplyPatch(accounts[1], p))], 3)
  {
    var accounts := [NewAccount(1), NewAccount(2)];
    var p := Patch(Some(1), Missing, None, None, None, None);
    var updated := accounts[1 := Validated(ApplyPatch(accounts[1], p))];
    assert updated[0].id == updated[1].id;
  }
}
