/** The user index: a hash table of singly linked chains of users, each user
    carrying the root of its history tree. A chain is a sequence whose first
    element is the chain head. */
module Users {
  import opened Trees
  import opened History

  datatype User = User(userID: int, history: Tree<Rating>)

  /** A user as makeNewUser creates it: no history yet. */
  function NewUser(userID: int): User
  {
    User(userID, Nil)
  }

  function Abs(x: int): nat
  {
    if x < 0 then -x else x
  }

  /** C's `%` on `int`: the remainder takes the sign of the dividend and is
      smaller than the divisor in magnitude. */
  function CRem(x: int, y: int): (r: int)
    requires y != 0
    ensures x >= 0 ==> 0 <= r < Abs(y)
    ensures x < 0 ==> 0 < r + Abs(y) && r <= 0
  {
    if x >= 0 then x % Abs(y) else -((-x) % Abs(y))
  }

  /** hash_function: ((a*x + b) % p) % m with C remainders. */
  function Hash(a: int, b: int, x: int, m: int, p: int): int
    requires m != 0 && p != 0
  {
    CRem(CRem(a * x + b, p), m)
  }

  /** For non-negative operands the bucket is an index of the first m slots. */
  lemma HashInRange(a: int, b: int, x: int, m: int, p: int)
    requires 0 <= a && 0 <= b && 0 <= x && 0 < m && 0 < p
    ensures 0 <= Hash(a, b, x, m, p) < m
  {
    assert a * x >= 0;
  }

  /** A negative identifier can give a negative bucket, which is why the user
      operations ask for a non-negative identifier. */
  lemma HashNegative()
    ensures Hash(1, 0, -1, 5, 7) == -1
  {
    assert CRem(-1, 7) == -1;
  }

  /** Some user of the chain carries `id`. */
  predicate InChain(chain: seq<User>, id: int)
  {
    exists k :: 0 <= k < |chain| && chain[k].userID == id
  }

  /** Position of the first user carrying `id`, or |chain| when there is none:
      where the scans of existsUser, userFind and unregister_user stop. */
  function IndexOf(chain: seq<User>, id: int): (j: nat)
    ensures j <= |chain|
    ensures j < |chain| ==> chain[j].userID == id
    ensures forall k :: 0 <= k < j ==> chain[k].userID != id
  {
    if chain == [] then 0
    else if chain[0].userID == id then 0
    else 1 + IndexOf(chain[1..], id)
  }

  lemma IndexOfFinds(chain: seq<User>, id: int)
    ensures IndexOf(chain, id) < |chain| <==> InChain(chain, id)
  {
    if InChain(chain, id) {
      var k :| 0 <= k < |chain| && chain[k].userID == id;
      assert IndexOf(chain, id) <= k;
    }
  }

  /** What unregister_user leaves of the chain once the user at j has been
      found: the head is unlinked by moving the bucket to the next user, the
      tail by cutting its predecessor's link, and a user strictly inside the
      chain only loses its history and stays linked. */
  function Unregistered(chain: seq<User>, j: int): seq<User>
    requires 0 <= j < |chain|
  {
    if j == 0 then chain[1..]
    else if j == |chain| - 1 then chain[..j]
    else chain[j := User(chain[j].userID, Nil)]
  }

  /** Identifiers within a chain are pairwise distinct. */
  predicate Distinct(chain: seq<User>)
  {
    forall i, j :: 0 <= i < j < |chain| ==> chain[i].userID != chain[j].userID
  }

  /** A head or tail user is gone from the chain afterwards, and the others
      keep their order. */
  lemma UnregisterEnds(chain: seq<User>, j: int)
    requires Distinct(chain) && 0 <= j < |chain|
    requires j == 0 || j == |chain| - 1
    ensures |Unregistered(chain, j)| == |chain| - 1
    ensures !InChain(Unregistered(chain, j), chain[j].userID)
    ensures forall k :: 0 <= k < |chain| && k != j ==> chain[k] in Unregistered(chain, j)
  {
    var c := Unregistered(chain, j);
    forall k | 0 <= k < |chain| && k != j ensures chain[k] in c {
      if j == 0 {
        assert c[k - 1] == chain[k];
      } else {
        assert c[k] == chain[k];
      }
    }
  }

  /** A user strictly inside the chain is still found there afterwards, with
      an empty history; nothing else changes. */
  lemma UnregisterMiddle(chain: seq<User>, j: int)
    requires 0 < j < |chain| - 1
    ensures |Unregistered(chain, j)| == |chain|
    ensures InChain(Unregistered(chain, j), chain[j].userID)
    ensures Unregistered(chain, j)[j] == User(chain[j].userID, Nil)
    ensures forall k :: 0 <= k < |chain| && k != j ==> Unregistered(chain, j)[k] == chain[k]
  {
    assert Unregistered(chain, j)[j].userID == chain[j].userID;
  }

  /** Unregistering keeps identifiers distinct and introduces none. */
  lemma UnregisterDistinct(chain: seq<User>, j: int)
    requires Distinct(chain) && 0 <= j < |chain|
    ensures Distinct(Unregistered(chain, j))
    ensures forall u :: u in Unregistered(chain, j) ==> u in chain || u == User(chain[j].userID, Nil)
  {
    var c := Unregistered(chain, j);
    if j == 0 {
      assert forall i :: 0 <= i < |c| ==> c[i] == chain[i + 1];
    } else if j == |chain| - 1 {
      assert forall i :: 0 <= i < |c| ==> c[i] == chain[i];
    }
  }

  /** Appending a user whose identifier is new keeps identifiers distinct. */
  lemma AppendDistinct(chain: seq<User>, u: User)
    requires Distinct(chain) && !InChain(chain, u.userID)
    ensures Distinct(chain + [u])
    ensures InChain(chain + [u], u.userID)
  {
    var c := chain + [u];
    assert c[|chain|] == u;
    forall i, j | 0 <= i < j < |c| ensures c[i].userID != c[j].userID {
      if j < |chain| {
        assert c[i] == chain[i] && c[j] == chain[j];
      } else {
        assert c[i] == chain[i];
      }
    }
  }
}
