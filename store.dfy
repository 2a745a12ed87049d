/**
 * The account store: an ordered list of account records and the counter
 * that hands out ids, changed in place by the four operations the form
 * uses. Persistence is not part of this module.
 */
module AccountStore {
  import opened Labels
  import opened Accounts

  /**
   * What the browser storage held under the store's key when the store was
   * created: nothing (no entry, or an empty string), text that did not parse,
   * or a parsed list of records.
   */
  datatype Stored = Nothing | Unparsable | Parsed(accounts: seq<Account>)

  /**
   * `accounts.findIndex(acc => acc.id === id)`: the position of the first
   * record carrying `id`, or -1 when there is none.
   */
  method FindIndexById(accounts: seq<Account>, id: int) returns (index: int)
    ensures -1 <= index < |accounts|
    ensures index == -1 <==> !HasId(accounts, id)
    ensures 0 <= index ==> accounts[index].id == id
    ensures forall j :: 0 <= j < index ==> accounts[j].id != id
  {
    index := 0;
    while index < |accounts|
      invariant 0 <= index <= |accounts|
      invariant forall j :: 0 <= j < index ==> accounts[j].id != id
    {
      if accounts[index].id == id {
        return;
      }
      index := index + 1;
    }
    index := -1;
  }

  class Store {
    /** The records, in display order. */
    var accounts: seq<Account>
    /** The id the next added record receives. */
    var idCounter: int

    /** Ids are pairwise distinct and all below the counter. */
    ghost predicate Valid()
      reads this
    {
      IdInvariant(accounts, idCounter)
    }

    /**
     * `loadFromStorage` on a fresh store: a parsed list becomes the record
     * list, and a non-empty one sets the counter one past its largest id;
     * otherwise the list is empty and the counter starts at 1. The counter
     * always ends above every loaded id, so the invariant holds whenever
     * the loaded ids are distinct.
     */
    constructor Load(stored: Stored)
      ensures accounts == if stored.Parsed? then stored.accounts else []
      ensures idCounter == if stored.Parsed? && stored.accounts != [] then MaxId(stored.accounts) + 1 else 1
      ensures IdsBelow(accounts, idCounter)
      ensures Valid() <==> IdsDistinct(accounts)
    {
      accounts := [];
      idCounter := 1;
      if stored.Parsed? {
        accounts := stored.accounts;
        if |stored.accounts| > 0 {
          idCounter := MaxId(stored.accounts) + 1;
          LoadedCounterAboveIds(stored.accounts);
        }
      }
    }

    /**
     * `addAccount`: appends one default record whose id is the counter,
     * and advances the counter; the records before it are unchanged.
     */
    method AddAccount()
      modifies this
      ensures accounts == old(accounts) + [NewAccount(old(idCounter))]
      ensures idCounter == old(idCounter) + 1
      ensures old(Valid()) ==> Valid()
    {
      if Valid() {
        AddKeepsIdInvariant(accounts, idCounter);
      }
      accounts := accounts + [NewAccount(idCounter)];
      idCounter := idCounter + 1;
    }

    /**
     * `removeAccount`: drops the first record carrying `id` and keeps the
     * order of the others; with no such record nothing changes.
     */
    method RemoveAccount(id: int)
      modifies this
      ensures accounts == RemoveFirst(old(accounts), id)
      ensures !HasId(old(accounts), id) ==> accounts == old(accounts)
      ensures idCounter == old(idCounter)
      ensures old(Valid()) ==> Valid()
    {
      if Valid() {
        RemoveKeepsIdInvariant(accounts, idCounter, id);
      }
      var index := FindIndexById(accounts, id);
      if index != -1 {
        RemoveFirstAt(accounts, id, index);
        accounts := accounts[..index] + accounts[index + 1..];
      } else {
        RemoveFirstAbsent(accounts, id);
      }
    }

    /**
     * `updateAccount`: out of range, nothing changes. Otherwise a present
     * `labelRaw` is cleaned and the labels derived from it, the other
     * present keys overwrite their fields, and the record is validated;
     * the other records are untouched. Without an `id` key the invariant
     * is kept.
     */
    method UpdateAccount(index: int, patch: Patch)
      modifies this
      ensures accounts == if 0 <= index < |old(accounts)|
                          then old(accounts)[index := Validated(ApplyPatch(old(accounts)[index], patch))]
                          else old(accounts)
      ensures idCounter == old(idCounter)
      ensures old(Valid()) && patch.id.None? ==> Valid()
    {
      if !(0 <= index < |accounts|) {
        return;
      }
      if Valid() && patch.id.None? {
        UpdateKeepsIdInvariant(accounts, idCounter, index, patch);
      }
      var account := accounts[index];
      if !patch.labelRaw.Missing? {
        var cleaned := CleanedLabelRaw(patch.labelRaw);
        account := account.(labelRaw := cleaned, labels := DeriveLabels(cleaned));
      }
      ApplyPatchInSteps(accounts[index], patch, account);
      account := Assign(account, patch);
      accounts := accounts[index := account];
      ValidateAccount(index);
    }

    /**
     * `validateAccount`: out of range, nothing changes. Otherwise the
     * record's `errors` and `isValid` are recomputed from its fields and
     * nothing else changes.
     */
    method ValidateAccount(index: int)
      modifies this
      ensures accounts == if 0 <= index < |old(accounts)|
                          then old(accounts)[index := Validated(old(accounts)[index])]
                          else old(accounts)
      ensures idCounter == old(idCounter)
      ensures old(Valid()) ==> Valid()
    {
      if !(0 <= index < |accounts|) {
        return;
      }
      if Valid() {
        ValidateKeepsIdInvariant(accounts, idCounter, index);
      }
      var account := accounts[index];
      var errors := FieldErrors(account);
      account := account.(errors := errors,
                          isValid := !errors[LabelRawField] && !errors[LoginField] && !errors[PasswordField]);
      accounts := accounts[index := account];
    }
  }
}
