/**
 * A qtractorCommand as a node of the command chain.
 *
 * The chain is a sequence of commands in execution order. The node's own
 * prev()/next() links are the neighbours of the command in that sequence,
 * found by walking the sequence by identity, as the intrusive list does.
 */
module Commands {

  datatype Option<T> = None | Some(value: T)

  /**
   * A command: its identity (the object it is in the source) and its display
   * name. What the command does to the session is not modelled; the outcome of
   * its redo() and undo() is supplied by the caller.
   */
  datatype Command = Command(id: nat, name: string)

  /** No command occurs twice in the chain: each node is linked once. */
  predicate Distinct(s: seq<Command>) {
    forall i, j :: 0 <= i < j < |s| ==> s[i] != s[j]
  }

  /** The list's first(): the head of the chain, or None when it is empty. */
  function First(s: seq<Command>): Option<Command> {
    if |s| == 0 then None else Some(s[0])
  }

  /** The list's last(): the tail of the chain, or None when it is empty. */
  function Final(s: seq<Command>): Option<Command> {
    if |s| == 0 then None else Some(s[|s| - 1])
  }

  /** The position of the first occurrence of `c` in the chain. */
  function Position(s: seq<Command>, c: Command): (k: nat)
    requires c in s
    ensures k < |s| && s[k] == c
    ensures forall j :: 0 <= j < k ==> s[j] != c
  {
    if s[0] == c then 0 else 1 + Position(s[1..], c)
  }

  /** c->next(): the command linked after `c`, None when `c` is the tail. */
  function After(s: seq<Command>, c: Command): (r: Option<Command>)
    requires c in s
    ensures r.Some? ==> r.value in s
  {
    if s[0] == c then First(s[1..]) else After(s[1..], c)
  }

  /** c->prev(): the command linked before `c`, None when `c` is the head. */
  function Before(s: seq<Command>, c: Command): (r: Option<Command>)
    requires c in s
    ensures r.Some? ==> r.value in s
  {
    if s[0] == c then None
    else if s[1] == c then Some(s[0])
    else Before(s[1..], c)
  }

  /** The list's remove(item): unlinks the first occurrence of `c`. */
  function Remove(s: seq<Command>, c: Command): (r: seq<Command>)
    ensures |r| == if c in s then |s| - 1 else |s|
  {
    if s == [] then []
    else
      assert s == [s[0]] + s[1..];
      if s[0] == c then s[1..] else [s[0]] + Remove(s[1..], c)
  }

  lemma DistinctTail(s: seq<Command>)
    requires Distinct(s) && |s| > 0
    ensures Distinct(s[1..])
  {
  }

  /** In a chain without repetitions, a command's position is its index. */
  lemma PositionAt(s: seq<Command>, k: nat)
    requires Distinct(s) && k < |s|
    ensures Position(s, s[k]) == k
  {
  }

  /** The next() link of the command at index k is the command at index k + 1. */
  lemma {:induction false} AfterAt(s: seq<Command>, k: nat)
    requires Distinct(s) && k < |s|
    ensures After(s, s[k]) == if k + 1 < |s| then Some(s[k + 1]) else None
  {
    if k > 0 {
      assert s[0] != s[k];
      assert s[1..][k - 1] == s[k];
      DistinctTail(s);
      AfterAt(s[1..], k - 1);
    }
  }

  /** The prev() link of the command at index k is the command at index k - 1. */
  lemma {:induction false} BeforeAt(s: seq<Command>, k: nat)
    requires Distinct(s) && k < |s|
    ensures Before(s, s[k]) == if k > 0 then Some(s[k - 1]) else None
  {
    if k > 1 {
      assert s[0] != s[k] && s[1] != s[k];
      assert s[1..][k - 1] == s[k];
      DistinctTail(s);
      BeforeAt(s[1..], k - 1);
    }
  }

  /** Unlinking the command at index k closes the gap. */
  lemma RemoveAt(s: seq<Command>, k: nat)
    requires Distinct(s) && k < |s|
    ensures Remove(s, s[k]) == s[..k] + s[k + 1..]
  {
    RemoveFirst(s, k);
  }

  /** remove(item) unlinks the first occurrence of the item, at index k. */
  lemma {:induction false} RemoveFirst(s: seq<Command>, k: nat)
    requires k < |s| && forall j :: 0 <= j < k ==> s[j] != s[k]
    ensures Remove(s, s[k]) == s[..k] + s[k + 1..]
  {
    if k == 0 {
      assert s[..0] + s[1..] == s[1..];
    } else {
      var c := s[k];
      var t := s[1..];
      assert s[0] != c && t[k - 1] == c;
      assert Remove(s, c) == [s[0]] + Remove(t, c);
      assert forall j :: 0 <= j < k - 1 ==> t[j] != t[k - 1] by {
        forall j | 0 <= j < k - 1 ensures t[j] != t[k - 1] {
          assert t[j] == s[j + 1];
        }
      }
      RemoveFirst(t, k - 1);
      assert s == [s[0]] + t;
      ConsSplice(s[0], t, k);
    }
  }

  lemma ConsSplice(x: Command, t: seq<Command>, k: nat)
    requires 0 < k <= |t|
    ensures [x] + (t[..k - 1] + t[k..]) == ([x] + t)[..k] + ([x] + t)[k + 1..]
  {
    var s := [x] + t;
    assert s[..k] == [x] + t[..k - 1];
    assert s[k + 1..] == t[k..];
  }

  /** Dropping a slice of a chain without repetitions leaves none. */
  lemma DistinctSkip(s: seq<Command>, i: nat, j: nat)
    requires Distinct(s) && i <= j <= |s|
    ensures Distinct(s[..i] + s[j..])
  {
    var r := s[..i] + s[j..];
    forall a, b | 0 <= a < b < |r| ensures r[a] != r[b] {
      var a' := if a < i then a else a + (j - i);
      var b' := if b < i then b else b + (j - i);
      assert r[a] == s[a'] && r[b] == s[b'];
    }
  }
}
