/** The mutable ledger: the methods of `Ledger` as single calls on the shared map. */
module LedgerObject {
  import opened Common
  import opened LedgerSpec
  import Hex

  class Ledger {
    var accounts: Accounts

    constructor ()
      ensures accounts == map[]
    {
      accounts := map[];
    }

    method Register(address: Address, initial: u64) returns (created: bool)
      modifies this
      ensures (accounts, Registered(created)) == Apply(LedgerSpec.Register(address, initial), old(accounts))
      ensures created <==> address !in old(accounts)
      ensures accounts == if created then old(accounts)[address := AccountState(initial, 0)] else old(accounts)
    {
      if address in accounts {
        created := false;
      } else {
        accounts := accounts[address := AccountState(initial, 0)];
        created := true;
      }
    }

    method Balance(address: Address) returns (r: Option<u64>)
      ensures r.Some? <==> address in accounts
      ensures r.Some? ==> r.value == accounts[address].balance
    {
      if address in accounts {
        r := Some(accounts[address].balance);
      } else {
        r := None;
      }
    }

    method Nonce(address: Address) returns (r: Option<u64>)
      ensures r.Some? <==> address in accounts
      ensures r.Some? ==> r.value == accounts[address].nonce
    {
      if address in accounts {
        r := Some(accounts[address].nonce);
      } else {
        r := None;
      }
    }

    /** A transfer either changes nothing and says why, or moves the amount and counts the nonce. */
    method Transfer(from: Address, to: Address, amount: u64, nonce: u64) returns (error: Option<LedgerError>)
      modifies this
      ensures (accounts, if error.None? then Accepted else Rejected(error.value)) ==
              Apply(LedgerSpec.Transfer(from, to, amount, nonce), old(accounts))
      ensures error.Some? ==> accounts == old(accounts)
      ensures error == Some(SelfTransfer) <==> from == to
      ensures error == Some(ZeroValue) <==> from != to && amount == 0
      ensures error == Some(AddressNotFound(from)) <==> from != to && 0 < amount && from !in old(accounts)
      ensures from in old(accounts) ==>
                (error == Some(InvalidNonce(old(accounts)[from].nonce, nonce)) <==>
                   from != to && 0 < amount && old(accounts)[from].nonce != nonce)
      ensures from in old(accounts) ==>
                (error == Some(InsufficientBalance(old(accounts)[from].balance, amount)) <==>
                   && from != to && 0 < amount
                   && old(accounts)[from].nonce == nonce && old(accounts)[from].balance < amount)
      ensures error.None? <==>
                && from != to && 0 < amount && from in old(accounts)
                && old(accounts)[from].nonce == nonce && amount <= old(accounts)[from].balance
      ensures error.None? ==>
                && accounts.Keys == old(accounts).Keys + {to}
                && accounts[from] == AccountState(old(accounts)[from].balance - amount, WrapAdd(nonce, 1))
                && accounts[to].balance == WrapAdd(if to in old(accounts) then old(accounts)[to].balance else 0, amount)
                && accounts[to].nonce == NonceOf(old(accounts), to)
      ensures forall a :: a in old(accounts) && a != from && a != to ==>
                a in accounts && accounts[a] == old(accounts)[a]
    {
      if from == to { return Some(SelfTransfer); }
      if amount == 0 { return Some(ZeroValue); }
      if from !in accounts { return Some(AddressNotFound(from)); }
      var sender := accounts[from];
      if sender.nonce != nonce { return Some(InvalidNonce(sender.nonce, nonce)); }
      if sender.balance < amount { return Some(InsufficientBalance(sender.balance, amount)); }
      accounts := accounts[from := AccountState(sender.balance - amount, WrapAdd(sender.nonce, 1))];
      if to in accounts {
        accounts := accounts[to := accounts[to].(balance := WrapAdd(accounts[to].balance, amount))];
      } else {
        accounts := accounts[to := AccountState(amount, 0)];
      }
      error := None;
    }

    method Credit(address: Address, amount: u64)
      modifies this
      ensures accounts == Apply(LedgerSpec.Credit(address, amount), old(accounts)).0
      ensures accounts.Keys == old(accounts).Keys + {address}
      ensures accounts[address].nonce == NonceOf(old(accounts), address)
      ensures accounts[address].balance ==
              if address in old(accounts) then WrapAdd(old(accounts)[address].balance, amount) else amount
      ensures forall a :: a in old(accounts) && a != address ==> accounts[a] == old(accounts)[a]
    {
      if address in accounts {
        accounts := accounts[address := accounts[address].(balance := WrapAdd(accounts[address].balance, amount))];
      } else {
        accounts := accounts[address := AccountState(amount, 0)];
      }
    }

    /** The listing has one entry per account, under the account's own name, with its state:
        no two accounts share a name and no name is left over. */
    method Snapshot() returns (listing: map<string, AccountState>)
      ensures forall a: Address :: a in accounts ==> Hex.Render(a) in listing && listing[Hex.Render(a)] == accounts[a]
      ensures forall name :: name in listing ==> exists a: Address :: a in accounts && name == Hex.Render(a)
      ensures |listing| == |accounts|
    {
      listing := map[];
      var rest := accounts.Keys;
      while rest != {}
        invariant rest <= accounts.Keys
        invariant forall a: Address :: a in accounts && a !in rest ==>
                    Hex.Render(a) in listing && listing[Hex.Render(a)] == accounts[a]
        invariant forall name :: name in listing ==>
                    exists a: Address :: a in accounts && a !in rest && name == Hex.Render(a)
        invariant |listing| + |rest| == |accounts|
        decreases |rest|
      {
        var a: Address :| a in rest;
        if Hex.Render(a) in listing {
          var b: Address :| b in accounts && b !in rest && Hex.Render(a) == Hex.Render(b);
          Hex.RenderInjective(a, b);
          assert false;
        }
        forall b: Address | b in accounts && b !in rest ensures Hex.Render(b) != Hex.Render(a) {
          if Hex.Render(b) == Hex.Render(a) { Hex.RenderInjective(a, b); }
        }
        listing := listing[Hex.Render(a) := accounts[a]];
        rest := rest - {a};
      }
    }
  }
}
