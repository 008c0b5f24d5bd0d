/** `accountNameQuery`: the display name of an account id, with its `null`
    and "UNKNOWN" fallbacks. */
module Accounts {
  import opened Common

  /** An account of the banking API, reduced to its id and display name. */
  datatype Account = Account(id: Id, displayName: string)

  /** The position `find` stops at: the first account with the id. */
  function FindAccount(accounts: seq<Account>, id: string): (r: Option<nat>)
    ensures r.Some? ==> r.value < |accounts| && accounts[r.value].id == id
    ensures r.Some? ==> forall k | 0 <= k < r.value :: accounts[k].id != id
    ensures r.None? ==> forall k | 0 <= k < |accounts| :: accounts[k].id != id
  {
    if accounts == [] then None
    else if accounts[0].id == id then Some(0)
    else match FindAccount(accounts[1..], id) {
      case None => None
      case Some(k) => Some(k + 1)
    }
  }

  /** The name shown for a transfer account: none for no account, "UNKNOWN"
      for an id no account has, otherwise the display name of the first
      account with the id. */
  function AccountName(accounts: seq<Account>, accountId: Option<string>): (r: Option<string>)
    ensures r.None? <==> accountId.None?
    ensures accountId.Some? && (forall k | 0 <= k < |accounts| :: accounts[k].id != accountId.value) ==>
              r == Some("UNKNOWN")
    ensures forall k | 0 <= k < |accounts| && accountId.Some? && accounts[k].id == accountId.value &&
                       (forall k' | 0 <= k' < k :: accounts[k'].id != accountId.value) ::
              r == Some(accounts[k].displayName)
  {
    if accountId.None? then None
    else match FindAccount(accounts, accountId.value) {
      case None => Some("UNKNOWN")
      case Some(k) => Some(accounts[k].displayName)
    }
  }
}
