/** The values shared by the accounts-database models. */
module Types {
  type Slot = nat

  // The 32 bytes of a public key, read as a big-endian number, so that `<` is the key order.
  type Pubkey = nat

  type StoreId = nat

  type Offset = nat

  datatype Option<+T> = None | Some(value: T)

  datatype Account = Account(lamports: nat, owner: Pubkey, data: seq<bv8>) {
    predicate ZeroLamport() {
      lamports == 0
    }
  }

  // What a load shows: an account without lamports counts as absent.
  function Visible(account: Account): (shown: Option<Account>) {
    if account.ZeroLamport() then None else Some(account)
  }

  // Where the index says an account version lives. `cached` versions are in the write cache only.
  datatype AccountInfo = AccountInfo(storeId: StoreId, offset: Offset, zeroLamport: bool, cached: bool)

  // A set of slots that is not empty has a highest one.
  lemma {:induction false} TopOf(slots: set<Slot>) returns (top: Slot)
    requires slots != {}
    ensures top in slots && forall s | s in slots :: s <= top
  {
    top :| top in slots;
    if slots != {top} {
      var rest := TopOf(slots - {top});
      assert forall s | s in slots :: s == top || s in slots - {top};
      if rest > top { top := rest; }
    }
  }

  ghost predicate Distinct<T>(s: seq<T>) {
    forall i, j | 0 <= i < j < |s| :: s[i] != s[j]
  }

  lemma SubsetCard<T>(a: set<T>, b: set<T>)
    requires a <= b
    ensures |a| <= |b|
    ensures |a| == |b| ==> a == b
    ensures |b - a| == |b| - |a|
  {
    assert b == a + (b - a);
  }
}
