/** The token ledger: OpenZeppelin's ERC20 with its unchecked additions
    (docs/superpowers/specs/_contract/ERC20.sol). */
module Token {
  import opened Words

  type Account = nat  // an address as a number; 0 is the zero address

  const ZERO: Account := 0

  datatype Ledger = Ledger(
    balances: map<Account, Word>,
    allowances: map<(Account, Account), Word>,
    totalSupply: Word)
  {
    function BalanceOf(a: Account): Word
    {
      if a in balances then balances[a] else 0
    }

    function Allowance(owner: Account, spender: Account): Word
    {
      if (owner, spender) in allowances then allowances[(owner, spender)] else 0
    }
  }

  // ---- the operations on ledger values; `Add` and `Sub` wrap, as unchecked code does ----

  /** Take the value from the sender, or from thin air for a mint: the checked half of `_update`. */
  function Debit(l: Ledger, from: Account, value: Word): Result<Ledger>
  {
    if from == ZERO then
      if l.totalSupply + value >= W then Revert
      else Return(l.(totalSupply := l.totalSupply + value))
    else if l.BalanceOf(from) < value then Revert
    else Return(l.(balances := l.balances[from := Sub(l.BalanceOf(from), value)]))
  }

  /** Give the value to the receiver, or burn it: the unchecked half of `_update`. */
  function Credit(l: Ledger, to: Account, value: Word): Ledger
  {
    if to == ZERO then l.(totalSupply := Sub(l.totalSupply, value))
    else l.(balances := l.balances[to := Add(l.BalanceOf(to), value)])
  }

  function Update(l: Ledger, from: Account, to: Account, value: Word): Result<Ledger>
  {
    match Debit(l, from, value)
    case Revert => Revert
    case Return(m) => Return(Credit(m, to, value))
  }

  function Transfer(l: Ledger, from: Account, to: Account, value: Word): Result<Ledger>
  {
    if from == ZERO || to == ZERO then Revert else Update(l, from, to, value)
  }

  function Mint(l: Ledger, to: Account, value: Word): Result<Ledger>
  {
    if to == ZERO then Revert else Update(l, ZERO, to, value)
  }

  function Burn(l: Ledger, from: Account, value: Word): Result<Ledger>
  {
    if from == ZERO then Revert else Update(l, from, ZERO, value)
  }

  function Approve(l: Ledger, owner: Account, spender: Account, value: Word): Result<Ledger>
  {
    if owner == ZERO || spender == ZERO then Revert
    else Return(l.(allowances := l.allowances[(owner, spender) := value]))
  }

  /** An allowance of 2^256 - 1 is unlimited and is not spent. */
  function SpendAllowance(l: Ledger, owner: Account, spender: Account, value: Word): Result<Ledger>
  {
    var current := l.Allowance(owner, spender);
    if current == W - 1 then Return(l)
    else if current < value then Revert
    else Approve(l, owner, spender, current - value)
  }

  function TransferFrom(l: Ledger, spender: Account, from: Account, to: Account, value: Word): Result<Ledger>
  {
    match SpendAllowance(l, from, spender, value)
    case Revert => Revert
    case Return(m) => Transfer(m, from, to, value)
  }

  // ---- conservation ----

  /** The sum of the values of a map. */
  ghost function Total(m: map<Account, Word>): nat
  {
    if m == map[] then 0
    else
      var a :| a in m;
      m[a] + Total(m - {a})
  }

  lemma {:induction false} TotalWithout(m: map<Account, Word>, a: Account)
    requires a in m
    ensures Total(m) == m[a] + Total(m - {a})
    decreases |m|
  {
    var b :| b in m && Total(m) == m[b] + Total(m - {b});
    if a != b {
      TotalWithout(m - {b}, a);
      TotalWithout(m - {a}, b);
      assert m - {b} - {a} == m - {a} - {b};
    }
  }

  lemma TotalWith(m: map<Account, Word>, a: Account, value: Word)
    ensures Total(m[a := value]) == Total(m) - (if a in m then m[a] else 0) + value
  {
    var n := m[a := value];
    TotalWithout(n, a);
    if a in m {
      TotalWithout(m, a);
      assert n - {a} == m - {a};
    } else {
      assert n - {a} == m;
    }
  }

  lemma EntryAtMostTotal(m: map<Account, Word>, a: Account)
    ensures (if a in m then m[a] else 0) <= Total(m)
  {
    if a in m {
      TotalWithout(m, a);
    }
  }

  ghost predicate Conserved(l: Ledger)
  {
    Total(l.balances) == l.totalSupply
  }

  lemma WrapFree(x: int)
    requires 0 <= x < W
    ensures x % W == x
  {
  }

  /** The debit leaves the books short by exactly the value, and changes nobody else. */
  lemma DebitIsExact(l: Ledger, from: Account, value: Word)
    requires Conserved(l) && Debit(l, from, value).Return?
    ensures var m := Debit(l, from, value).value;
      && Total(m.balances) + value == m.totalSupply
      && m.totalSupply == l.totalSupply + (if from == ZERO then value else 0)
      && m.allowances == l.allowances
      && forall a: Account :: m.BalanceOf(a) == l.BalanceOf(a) - (if a == from && from != ZERO then value else 0)
  {
    if from != ZERO {
      WrapFree(l.BalanceOf(from) - value);
      hide W;
      TotalWith(l.balances, from, l.BalanceOf(from) - value);
    }
  }

  /** The credit closes the gap; its unchecked arithmetic never wraps. */
  lemma CreditIsExact(l: Ledger, to: Account, value: Word)
    requires Total(l.balances) + value == l.totalSupply
    ensures var m := Credit(l, to, value);
      && Conserved(m)
      && m.totalSupply == l.totalSupply - (if to == ZERO then value else 0)
      && m.allowances == l.allowances
      && forall a: Account :: m.BalanceOf(a) == l.BalanceOf(a) + (if a == to && to != ZERO then value else 0)
  {
    if to == ZERO {
      WrapFree(l.totalSupply - value);
    } else {
      EntryAtMostTotal(l.balances, to);
      WrapFree(l.BalanceOf(to) + value);
      hide W;
      TotalWith(l.balances, to, l.BalanceOf(to) + value);
    }
  }

  /** What an update adds to one account, as integers. */
  function Gain(a: Account, from: Account, to: Account, value: nat): int
  {
    (if a == to && to != ZERO then value else 0) - (if a == from && from != ZERO then value else 0)
  }

  /** The sum of the balances is the total supply across every transfer, mint and burn, and every
      balance and the supply change by exact, unwrapped amounts. */
  lemma UpdateConserves(l: Ledger, from: Account, to: Account, value: Word)
    requires Conserved(l) && Update(l, from, to, value).Return?
    ensures var m := Update(l, from, to, value).value;
      && Conserved(m)
      && m.allowances == l.allowances
      && m.totalSupply == l.totalSupply + (if from == ZERO then value else 0) - (if to == ZERO then value else 0)
      && forall a: Account :: m.BalanceOf(a) == l.BalanceOf(a) + Gain(a, from, to, value)
  {
    DebitIsExact(l, from, value);
    var d := Debit(l, from, value).value;
    CreditIsExact(d, to, value);
    hide Debit, Credit, Conserved, Ledger.BalanceOf;
  }

  /** With conserved books an update fails exactly when the sender is short, or a mint would overflow
      the supply. */
  lemma UpdateFails(l: Ledger, from: Account, to: Account, value: Word)
    ensures Update(l, from, to, value).Revert? <==>
            (if from == ZERO then l.totalSupply + value >= W else l.BalanceOf(from) < value)
  {
  }

  /** An allowance is spent exactly when it is unlimited, or covers the value and neither party is the zero
      address; only this allowance falls, by the value, and an unlimited one does not. */
  lemma SpendingKeepsBalances(l: Ledger, owner: Account, spender: Account, value: Word)
    ensures SpendAllowance(l, owner, spender, value).Return? <==>
            l.Allowance(owner, spender) == W - 1
            || (l.Allowance(owner, spender) >= value && owner != 0 && spender != 0)
    ensures SpendAllowance(l, owner, spender, value).Return? ==>
      var m := SpendAllowance(l, owner, spender, value).value;
      && m.balances == l.balances && m.totalSupply == l.totalSupply
      && l.Allowance(owner, spender) >= value
      && forall o: Account, s: Account :: m.Allowance(o, s) ==
           (if (o, s) == (owner, spender) && l.Allowance(o, s) != W - 1 then l.Allowance(o, s) - value else l.Allowance(o, s))
  {
  }

  // ---- what the calls do ----

  /** Value goes from one account to another, and nothing else happens to any balance or to the supply. */
  ghost predicate Moved(l: Ledger, from: Account, to: Account, value: int, m: Ledger)
  {
    && Conserved(m) && m.totalSupply == l.totalSupply
    && forall a: Account ::
         m.BalanceOf(a) == l.BalanceOf(a) + (if a == to then value else 0) - (if a == from then value else 0)
  }

  /** A transfer commits exactly between accounts other than the zero address, of a value the sender has. */
  lemma TransferCommits(l: Ledger, from: Account, to: Account, value: Word)
    requires Conserved(l)
    ensures Transfer(l, from, to, value).Return? <==> from != 0 && to != 0 && l.BalanceOf(from) >= value
    ensures Transfer(l, from, to, value).Return? ==>
      var m := Transfer(l, from, to, value).value;
      Moved(l, from, to, value, m) && m.allowances == l.allowances
  {
    UpdateFails(l, from, to, value);
    if Transfer(l, from, to, value).Return? {
      UpdateConserves(l, from, to, value);
    }
    hide Conserved, Update, Ledger.BalanceOf;
  }

  /** A transfer by allowance commits exactly when the transfer would and the allowance is unlimited, or
      covers the value and is not the zero address's. It moves the value and spends the allowance. */
  lemma TransferFromCommits(l: Ledger, spender: Account, from: Account, to: Account, value: Word)
    requires Conserved(l)
    ensures TransferFrom(l, spender, from, to, value).Return? <==>
      && from != 0 && to != 0 && l.BalanceOf(from) >= value
      && (l.Allowance(from, spender) == W - 1 || (l.Allowance(from, spender) >= value && spender != 0))
    ensures TransferFrom(l, spender, from, to, value).Return? ==>
      var m := TransferFrom(l, spender, from, to, value).value;
      && Moved(l, from, to, value, m)
      && forall o: Account, s: Account :: m.Allowance(o, s) ==
           (if o == from && s == spender && l.Allowance(o, s) != W - 1 then l.Allowance(o, s) - value else l.Allowance(o, s))
  {
    hide SpendAllowance, Transfer, Ledger.Allowance;
    SpendingKeepsBalances(l, from, spender, value);
    if SpendAllowance(l, from, spender, value).Return? {
      var m := SpendAllowance(l, from, spender, value).value;
      TransferCommits(m, from, to, value);
      if Transfer(m, from, to, value).Return? {
        SameAllowances(m, Transfer(m, from, to, value).value);
      }
    }
  }

  lemma SameAllowances(l: Ledger, m: Ledger)
    requires l.allowances == m.allowances
    ensures forall o: Account, s: Account :: m.Allowance(o, s) == l.Allowance(o, s)
  {
  }

  /** A mint commits exactly to an account other than the zero address while the supply stays a word; it adds
      the value there and to the supply. */
  lemma MintCommits(l: Ledger, to: Account, value: Word)
    requires Conserved(l)
    ensures Mint(l, to, value).Return? <==> to != 0 && l.totalSupply + value < W
    ensures Mint(l, to, value).Return? ==>
      var m := Mint(l, to, value).value;
      && Conserved(m) && m.totalSupply == l.totalSupply + value && m.allowances == l.allowances
      && forall a: Account :: m.BalanceOf(a) == l.BalanceOf(a) + (if a == to then value else 0)
  {
    UpdateFails(l, ZERO, to, value);
    if Mint(l, to, value).Return? {
      UpdateConserves(l, ZERO, to, value);
    }
    hide Conserved, Update, Ledger.BalanceOf;
  }

  /** A burn commits exactly from an account that has the value; it takes it there and from the supply. */
  lemma BurnCommits(l: Ledger, from: Account, value: Word)
    requires Conserved(l)
    ensures Burn(l, from, value).Return? <==> from != 0 && l.BalanceOf(from) >= value
    ensures Burn(l, from, value).Return? ==>
      var m := Burn(l, from, value).value;
      && Conserved(m) && m.totalSupply == l.totalSupply - value && m.allowances == l.allowances
      && forall a: Account :: m.BalanceOf(a) == l.BalanceOf(a) - (if a == from then value else 0)
  {
    UpdateFails(l, from, ZERO, value);
    if Burn(l, from, value).Return? {
      UpdateConserves(l, from, ZERO, value);
    }
    hide Conserved, Update, Ledger.BalanceOf;
  }

  /** An approval between accounts other than the zero address records its value, the unlimited one
      included, in the place of the old one, and does nothing else. */
  lemma ApproveCommits(l: Ledger, owner: Account, spender: Account, value: Word)
    ensures Approve(l, owner, spender, value).Return? <==> owner != 0 && spender != 0
    ensures Approve(l, owner, spender, value).Return? ==>
      var m := Approve(l, owner, spender, value).value;
      && m.balances == l.balances && m.totalSupply == l.totalSupply
      && forall o: Account, s: Account :: m.Allowance(o, s) == (if o == owner && s == spender then value else l.Allowance(o, s))
  {
  }

  // ---- the calls anyone can make ----

  datatype Call =
    | TransferCall(sender: Account, to: Account, value: Word)
    | ApproveCall(sender: Account, spender: Account, value: Word)
    | TransferFromCall(sender: Account, from: Account, to: Account, value: Word)

  function Perform(l: Ledger, c: Call): Result<Ledger>
  {
    match c
    case TransferCall(sender, to, value) => Transfer(l, sender, to, value)
    case ApproveCall(sender, spender, value) => Approve(l, sender, spender, value)
    case TransferFromCall(sender, from, to, value) => TransferFrom(l, sender, from, to, value)
  }

  /** A call that reverts leaves the ledger as it was. */
  function After(l: Ledger, c: Call): Ledger
  {
    match Perform(l, c)
    case Revert => l
    case Return(m) => m
  }

  /** What each call does, and when it reverts. */
  lemma CallDoes(l: Ledger, c: Call)
    requires Conserved(l)
    ensures Perform(l, c).Return? <==>
      match c
      case TransferCall(sender, to, value) => sender != 0 && to != 0 && l.BalanceOf(sender) >= value
      case ApproveCall(sender, spender, value) => sender != 0 && spender != 0
      case TransferFromCall(sender, from, to, value) =>
        && from != 0 && to != 0 && l.BalanceOf(from) >= value
        && (l.Allowance(from, sender) == W - 1 || (l.Allowance(from, sender) >= value && sender != 0))
    ensures Perform(l, c).Return? ==>
      var m := Perform(l, c).value;
      match c
      case TransferCall(sender, to, value) => Moved(l, sender, to, value, m) && m.allowances == l.allowances
      case ApproveCall(sender, spender, value) =>
        && m.balances == l.balances && m.totalSupply == l.totalSupply
        && m.Allowance(sender, spender) == value
      case TransferFromCall(sender, from, to, value) =>
        && Moved(l, from, to, value, m)
        && m.Allowance(from, sender) ==
           (if l.Allowance(from, sender) == W - 1 then W - 1 else l.Allowance(from, sender) - value)
  {
    match c
    case TransferCall(sender, to, value) => TransferCommits(l, sender, to, value);
    case ApproveCall(sender, spender, value) => ApproveCommits(l, sender, spender, value);
    case TransferFromCall(sender, from, to, value) => TransferFromCommits(l, sender, from, to, value);
    hide Transfer, TransferFrom, Approve, Moved, Ledger.BalanceOf, Ledger.Allowance, Conserved;
  }

  /** What a call moves out of an account that is not the caller's. */
  function Pulled(l: Ledger, c: Call, owner: Account): nat
  {
    if c.TransferFromCall? && c.from == owner && Perform(l, c).Return? then c.value else 0
  }

  lemma CallKeeps(l: Ledger, c: Call, owner: Account)
    requires Conserved(l) && c.sender != owner
    ensures var m := After(l, c);
      && Conserved(m) && m.totalSupply == l.totalSupply
      && m.BalanceOf(owner) >= l.BalanceOf(owner) - Pulled(l, c, owner)
      && (forall s: Account :: m.Allowance(owner, s) <= l.Allowance(owner, s))
      && (Pulled(l, c, owner) > 0 ==> l.Allowance(owner, c.sender) > 0)
  {
    match c
    case TransferCall(sender, to, value) =>
      if Transfer(l, sender, to, value).Return? {
        UpdateConserves(l, sender, to, value);
        hide Update, Conserved;
      }
    case ApproveCall(sender, spender, value) =>
    case TransferFromCall(sender, from, to, value) =>
      if TransferFrom(l, sender, from, to, value).Return? {
        SpendingKeepsBalances(l, from, sender, value);
        var m := SpendAllowance(l, from, sender, value).value;
        UpdateConserves(m, from, to, value);
        hide Update, Conserved, SpendAllowance;
      }
  }

  // ---- the contract ----

  class Erc20 {
    var balances: map<Account, Word>
    var allowances: map<(Account, Account), Word>
    var totalSupply: Word

    ghost function View(): Ledger
      reads this
    {
      Ledger(balances, allowances, totalSupply)
    }

    /** Success moves the storage to the value the call returns; a revert leaves it alone. */
    twostate predicate Outcome(r: Result<Ledger>, ok: bool)
      reads this
    {
      match r
      case Revert => !ok && View() == old(View())
      case Return(m) => ok && View() == m
    }

    constructor ()
      ensures View() == Ledger(map[], map[], 0) && Conserved(View())
    {
      balances := map[];
      allowances := map[];
      totalSupply := 0;
    }

    function BalanceOf(a: Account): Word
      reads this
    {
      if a in balances then balances[a] else 0
    }

    function AllowanceOf(owner: Account, spender: Account): Word
      reads this
    {
      if (owner, spender) in allowances then allowances[(owner, spender)] else 0
    }

    method MoveBalances(from: Account, to: Account, value: Word) returns (ok: bool)
      modifies this
      ensures Outcome(Update(old(View()), from, to, value), ok)
    {
      if from == ZERO {
        if totalSupply + value >= W {
          return false;
        }
        totalSupply := totalSupply + value;
      } else {
        var fromBalance := BalanceOf(from);
        if fromBalance < value {
          return false;
        }
        balances := balances[from := Sub(fromBalance, value)];
      }
      if to == ZERO {
        totalSupply := Sub(totalSupply, value);
      } else {
        balances := balances[to := Add(BalanceOf(to), value)];
      }
      return true;
    }

    method Move(from: Account, to: Account, value: Word) returns (ok: bool)
      modifies this
      ensures Outcome(Transfer(old(View()), from, to, value), ok)
    {
      if from == ZERO || to == ZERO {
        return false;
      }
      ok := MoveBalances(from, to, value);
    }

    method Issue(account: Account, value: Word) returns (ok: bool)
      modifies this
      ensures Outcome(Mint(old(View()), account, value), ok)
    {
      if account == ZERO {
        return false;
      }
      ok := MoveBalances(ZERO, account, value);
    }

    method Destroy(account: Account, value: Word) returns (ok: bool)
      modifies this
      ensures Outcome(Burn(old(View()), account, value), ok)
    {
      if account == ZERO {
        return false;
      }
      ok := MoveBalances(account, ZERO, value);
    }

    method SetAllowance(owner: Account, spender: Account, value: Word) returns (ok: bool)
      modifies this
      ensures Outcome(Approve(old(View()), owner, spender, value), ok)
    {
      if owner == ZERO || spender == ZERO {
        return false;
      }
      allowances := allowances[(owner, spender) := value];
      return true;
    }

    method UseAllowance(owner: Account, spender: Account, value: Word) returns (ok: bool)
      modifies this
      ensures Outcome(SpendAllowance(old(View()), owner, spender, value), ok)
    {
      var currentAllowance := AllowanceOf(owner, spender);
      if currentAllowance < W - 1 {
        if currentAllowance < value {
          return false;
        }
        ok := SetAllowance(owner, spender, Sub(currentAllowance, value));
      } else {
        ok := true;
      }
    }

    /** A revert after the allowance is spent rolls the spending back with the transaction. */
    method MoveFrom(spender: Account, from: Account, to: Account, value: Word) returns (ok: bool)
      modifies this
      ensures Outcome(TransferFrom(old(View()), spender, from, to, value), ok)
    {
      var saved := allowances;
      ok := UseAllowance(from, spender, value);
      if ok {
        ok := Move(from, to, value);
        if !ok {
          allowances := saved;
        }
      }
    }

    /** One of the calls anyone can make. */
    method Handle(c: Call) returns (ok: bool)
      modifies this
      ensures Outcome(Perform(old(View()), c), ok)
    {
      match c {
        case TransferCall(sender, to, value) =>
          ok := Move(sender, to, value);
        case ApproveCall(sender, spender, value) =>
          ok := SetAllowance(sender, spender, value);
        case TransferFromCall(sender, from, to, value) =>
          ok := MoveFrom(sender, from, to, value);
      }
    }
  }
}
