/** The ledger: each user's token balance in `app_user`, read and adjusted by signed deltas
    that may never take a balance below zero. */
module UserModel {
  import opened Php
  import opened Store

  /** What getBalance answers: the stored balance, or 0 when no such user exists. */
  function Balance(t: Tables, u: UserId): int
  {
    if u in t.balance then t.balance[u] else 0
  }

  ghost predicate NonNegative(t: Tables)
  {
    forall u :: u in t.balance ==> t.balance[u] >= 0
  }

  /** The statement `UPDATE app_user SET balance = balance + amount WHERE user_id = u`:
      it adds `amount` to that user's balance, and matches no row for an unknown user. */
  function Credit(t: Tables, u: UserId, amount: int): (r: Tables)
    ensures u in t.balance ==> Balance(r, u) == Balance(t, u) + amount
    ensures forall v :: v != u ==> Balance(r, v) == Balance(t, v)
    ensures r.balance.Keys == t.balance.Keys
    ensures r == t.(balance := r.balance)
    ensures u !in t.balance || amount == 0 ==> r == t
  {
    if u in t.balance then t.(balance := t.balance[u := t.balance[u] + amount]) else t
  }

  /** UserModel::getBalance. */
  method GetBalance(db: Connection, u: UserId) returns (b: int)
    ensures u in db.data.balance ==> b == db.data.balance[u]
    ensures u !in db.data.balance ==> b == 0
  {
    if u in db.data.balance {
      b := db.data.balance[u];
    } else {
      b := 0;
    }
  }

  /** UserModel::updateBalance. It refuses (returns false, writes nothing) when the balance would
      become negative; otherwise it runs the UPDATE, which raises when the store rejects writes to
      `app_user` (the rethrown PDOException is reported here as `ok == false`, which is how the only
      callers, the join settlements, treat it). It never opens or closes a transaction. */
  method UpdateBalance(db: Connection, u: UserId, amount: int) returns (ok: bool)
    requires db.Valid()
    modifies db
    ensures db.Valid()
    ensures ok == (Balance(old(db.data), u) + amount >= 0 && AppUser !in db.failing)
    ensures db.data == if ok then Credit(old(db.data), u, amount) else old(db.data)
    ensures db.inTransaction == old(db.inTransaction) && db.snapshot == old(db.snapshot)
  {
    var current := GetBalance(db, u);
    if current + amount < 0 {
      return false;
    }
    if AppUser in db.failing {
      return false;
    }
    db.data := Credit(db.data, u, amount);
    ok := true;
  }

  /** UserModel::hasEnoughTokens. */
  method HasEnoughTokens(db: Connection, u: UserId, required: int) returns (enough: bool)
    ensures enough <==> Balance(db.data, u) >= required
  {
    var b := GetBalance(db, u);
    enough := b >= required;
  }

  /** The balances after a sequence of updateBalance calls, each one refused (a no-op) when it
      would make the balance negative. */
  function ApplyUpdates(t: Tables, updates: seq<(UserId, int)>): Tables
    decreases |updates|
  {
    if updates == [] then t
    else
      var (u, amount) := updates[0];
      ApplyUpdates(if Balance(t, u) + amount >= 0 then Credit(t, u, amount) else t, updates[1..])
  }

  /** Starting from non-negative balances, no sequence of updateBalance calls makes any balance negative. */
  lemma {:induction false} LedgerNeverNegative(t: Tables, updates: seq<(UserId, int)>)
    requires NonNegative(t)
    ensures NonNegative(ApplyUpdates(t, updates))
    decreases |updates|
  {
    if updates != [] {
      var (u, amount) := updates[0];
      var next := if Balance(t, u) + amount >= 0 then Credit(t, u, amount) else t;
      forall v | v in next.balance
        ensures next.balance[v] >= 0
      {
        assert Balance(next, v) == next.balance[v];
      }
      LedgerNeverNegative(next, updates[1..]);
    }
  }

  /** `substr($p, 0, 1) === "'" && substr($p, -1) === "'"`. */
  predicate Quoted(p: string)
  {
    |p| >= 1 && p[0] == '\'' && p[|p| - 1] == '\''
  }

  /** The quote stripping findByEmail applies to a stored password: `substr($p, 1, -1)` when it is
      quoted, so a lone `'` becomes the empty string; any other string is returned unchanged. */
  function StripQuotes(p: string): (r: string)
    ensures !Quoted(p) ==> r == p
    ensures Quoted(p) ==> |r| == (if |p| >= 2 then |p| - 2 else 0)
    ensures Quoted(p) ==> forall i :: 0 <= i < |r| ==> r[i] == p[i + 1]
  {
    if Quoted(p) then (if |p| >= 2 then p[1..|p| - 1] else "") else p
  }

  /** Wrapping a password in single quotes and stripping them gives it back. */
  lemma StripQuotesRoundTrip(s: string)
    ensures StripQuotes("'" + s + "'") == s
  {
    var q := "'" + s + "'";
    assert Quoted(q);
    assert q[1..|q| - 1] == s;
  }
}
