/** `parse_reply`: the values of the reply are read key by key, in table
    order. Each key is searched for from where the previous value began, and
    its value is read one character past the end of the key (the `>` that
    closes an XML tag). */
module ReplyParser {
  import opened Wrappers
  import opened CStrings

  /** Why the reply could not be read. Both are undefined behaviour in the
      source (pointer arithmetic on a null pointer, or a read past the
      string's terminator), made explicit here. */
  datatype ParseError =
    | MissingKey(index: nat)      // key `index` does not occur after the cursor
    | ValuePastEnd(index: nat)    // key `index` ends exactly at the end of the reply
  {
    function Shift(): ParseError
    {
      match this
      case MissingKey(i) => MissingKey(i + 1)
      case ValuePastEnd(i) => ValuePastEnd(i + 1)
    }
  }

  /** The value read for each key, and the cursor each key leaves behind:
      the offset where its value starts. */
  datatype Extraction = Extraction(values: seq<real>, cursors: seq<nat>)

  /** The cursor key `k` is searched from: `from` for the first key, the
      previous key's cursor afterwards. */
  function Prev(from: nat, cursors: seq<nat>, k: nat): nat
    requires k <= |cursors|
  {
    if k == 0 then from else cursors[k - 1]
  }

  /** `key`'s leftmost occurrence at or after `start` ends one character
      before `c`, and `c` is still within the reply. */
  ghost predicate KeyEndsAt(reply: seq<char>, key: seq<char>, start: nat, c: nat)
  {
    && |key| + 1 <= c <= |reply|
    && FirstOccurrence(reply, key, start, c - |key| - 1)
  }

  /** The cursors a successful pass over `keys` from `from` leaves: the
      first key ends just before the first cursor, and the rest of the keys
      chain on from there. */
  ghost predicate Chain(reply: seq<char>, keys: seq<seq<char>>, from: nat, cursors: seq<nat>)
    decreases |keys|
  {
    && |cursors| == |keys|
    && (|keys| > 0 ==>
          && KeyEndsAt(reply, keys[0], from, cursors[0])
          && Chain(reply, keys[1..], cursors[0], cursors[1..]))
  }

  /** The cursors move strictly forwards, starting after `from`. */
  ghost predicate Ascending(from: nat, cursors: seq<nat>)
  {
    && (|cursors| > 0 ==> from < cursors[0])
    && forall j, k :: 0 <= j < k < |cursors| ==> cursors[j] < cursors[k]
  }

  /** The search of lines 58-65 from the key `keys[0]` on, with the cursor
      at `from`: each key's cursor, one character past the key's leftmost
      occurrence at or after the previous cursor. */
  function Scan(reply: seq<char>, keys: seq<seq<char>>, from: nat): (r: Result<seq<nat>, ParseError>)
    ensures r.Success? ==> Chain(reply, keys, from, r.value) && |r.value| == |keys|
    ensures r.Failure? ==> r.error.index < |keys|
    decreases |keys|
  {
    if |keys| == 0 then Success([])
    else
      match Find(reply, keys[0], from)
      case None => Failure(MissingKey(0))
      case Some(at) =>
        var c := at + |keys[0]| + 1;
        if c > |reply| then Failure(ValuePastEnd(0))
        else
          match Scan(reply, keys[1..], c)
          case Failure(e) => Failure(e.Shift())
          case Success(rest) =>
            assert ([c] + rest)[1..] == rest;
            Success([c] + rest)
  }

  /** Lines 57-66 from the key `keys[0]` on: the cursors of the search, and
      the value `atof` reads at each of them. */
  function ParseFrom(reply: seq<char>, keys: seq<seq<char>>, from: nat, atof: seq<char> -> real)
    : (r: Result<Extraction, ParseError>)
    ensures r.Success? ==>
              && Chain(reply, keys, from, r.value.cursors)
              && |r.value.values| == |keys| && |r.value.cursors| == |keys|
              && forall k :: 0 <= k < |keys| ==>
                   r.value.cursors[k] <= |reply| && r.value.values[k] == atof(reply[r.value.cursors[k]..])
    ensures r.Failure? ==> Scan(reply, keys, from) == Failure(r.error) && r.error.index < |keys|
  {
    match Scan(reply, keys, from)
    case Failure(e) => Failure(e)
    case Success(cursors) =>
      ChainInReply(reply, keys, from, cursors);
      Success(Extraction(seq(|keys|, k requires 0 <= k < |keys| => atof(reply[cursors[k]..])), cursors))
  }

  /** Every cursor of a chain lies within the reply. */
  lemma {:induction false} ChainInReply(reply: seq<char>, keys: seq<seq<char>>, from: nat, cursors: seq<nat>)
    requires Chain(reply, keys, from, cursors)
    ensures forall k :: 0 <= k < |cursors| ==> cursors[k] <= |reply|
    decreases |keys|
  {
    if |keys| > 0 {
      ChainInReply(reply, keys[1..], cursors[0], cursors[1..]);
      assert forall k :: 1 <= k < |cursors| ==> cursors[k] == cursors[1..][k - 1];
    }
  }

  /** The whole of `parse_reply`: every key of the table, from the start of
      the reply's text. */
  function ParseReply(reply: seq<char>, keys: seq<seq<char>>, atof: seq<char> -> real)
    : (r: Result<Extraction, ParseError>)
    ensures r.Success? ==> Chain(CString(reply), keys, 0, r.value.cursors) && |r.value.values| == |keys|
    ensures r.Failure? ==> r.error.index < |keys|
  {
    ParseFrom(CString(reply), keys, 0, atof)
  }

  /** The cursor never moves backwards: each key's value starts after the
      previous one's. */
  lemma {:induction false} ChainAscends(reply: seq<char>, keys: seq<seq<char>>, from: nat, cursors: seq<nat>)
    requires Chain(reply, keys, from, cursors)
    ensures Ascending(from, cursors)
    decreases |keys|
  {
    if |keys| > 0 {
      ChainAscends(reply, keys[1..], cursors[0], cursors[1..]);
      forall j, k | 0 <= j < k < |cursors|
        ensures cursors[j] < cursors[k]
      {
        if j > 0 {
          assert cursors[j] == cursors[1..][j - 1] && cursors[k] == cursors[1..][k - 1];
        } else {
          assert cursors[k] == cursors[1..][k - 1];
        }
      }
    }
  }

  /** Key `k` is the leftmost occurrence from the previous cursor on, and
      ends one character before its own cursor. */
  lemma {:induction false} ChainAt(reply: seq<char>, keys: seq<seq<char>>, from: nat, cursors: seq<nat>, k: nat)
    requires Chain(reply, keys, from, cursors) && k < |keys|
    ensures KeyEndsAt(reply, keys[k], Prev(from, cursors, k), cursors[k])
    decreases k
  {
    if k > 0 {
      ChainAt(reply, keys[1..], cursors[0], cursors[1..], k - 1);
      assert Prev(cursors[0], cursors[1..], k - 1) == Prev(from, cursors, k);
    }
  }

  /** The cursors of a pass are determined by the reply and the keys: there
      is only one chain. */
  lemma {:induction false} ChainUnique(reply: seq<char>, keys: seq<seq<char>>, from: nat, a: seq<nat>, b: seq<nat>)
    requires Chain(reply, keys, from, a) && Chain(reply, keys, from, b)
    ensures a == b
    decreases |keys|
  {
    if |keys| > 0 {
      FirstOccurrenceUnique(reply, keys[0], from, a[0] - |keys[0]| - 1, b[0] - |keys[0]| - 1);
      ChainUnique(reply, keys[1..], a[0], a[1..], b[1..]);
      assert a == [a[0]] + a[1..] && b == [b[0]] + b[1..];
    }
  }

  /** Whenever the keys can be found in order, the search succeeds, and it
      finds exactly that chain. */
  lemma {:induction false} ScanComplete(reply: seq<char>, keys: seq<seq<char>>, from: nat, cursors: seq<nat>)
    requires Chain(reply, keys, from, cursors)
    ensures Scan(reply, keys, from) == Success(cursors)
    decreases |keys|
  {
    if |keys| > 0 {
      var c := cursors[0];
      FindsKey(reply, keys[0], from, c);
      ScanComplete(reply, keys[1..], c, cursors[1..]);
      assert Scan(reply, keys, from) == Success([c] + cursors[1..]);
      assert cursors == [c] + cursors[1..];
    }
  }

  lemma FindsKey(reply: seq<char>, key: seq<char>, from: nat, c: nat)
    requires KeyEndsAt(reply, key, from, c)
    ensures Find(reply, key, from) == Some(c - |key| - 1)
  {
    FindFirst(reply, key, from, c - |key| - 1);
  }

  /** Keys `0..k-1` of the table are found, where `k` is the key `e` names,
      and then key `k` is either absent from their last cursor on
      (`MissingKey`) or first found there ending exactly at the end of the
      reply (`ValuePastEnd`). */
  ghost predicate FailsAt(reply: seq<char>, keys: seq<seq<char>>, from: nat, e: ParseError)
  {
    && e.index < |keys|
    && var before := Scan(reply, keys[..e.index], from);
       && before.Success?
       && var c := Prev(from, before.value, e.index);
          && (e.MissingKey? ==> NoOccurrence(reply, keys[e.index], c))
          && (e.ValuePastEnd? ==>
                |keys[e.index]| <= |reply| && FirstOccurrence(reply, keys[e.index], c, |reply| - |keys[e.index]|))
  }

  /** A search that fails reports the first key it could not read, after
      finding all the keys before it. */
  lemma {:induction false} ScanFailsAt(reply: seq<char>, keys: seq<seq<char>>, from: nat)
    requires Scan(reply, keys, from).Failure?
    ensures FailsAt(reply, keys, from, Scan(reply, keys, from).error)
    decreases |keys|
  {
    var e := Scan(reply, keys, from).error;
    if e.index == 0 {
      assert Scan(reply, keys[..0], from) == Success([]);
    } else {
      var c := Find(reply, keys[0], from).value + |keys[0]| + 1;
      var tail := Scan(reply, keys[1..], c);
      assert tail.Failure? && e == tail.error.Shift();
      ScanFailsAt(reply, keys[1..], c);
      FailsAtShift(reply, keys, from, tail.error);
    }
  }

  /** A failure after the first key, seen from the first key. */
  lemma FailsAtShift(reply: seq<char>, keys: seq<seq<char>>, from: nat, e: ParseError)
    requires |keys| > 0 && Find(reply, keys[0], from).Some?
    requires Find(reply, keys[0], from).value + |keys[0]| + 1 <= |reply|
    requires FailsAt(reply, keys[1..], Find(reply, keys[0], from).value + |keys[0]| + 1, e)
    ensures FailsAt(reply, keys, from, e.Shift())
  {
    PrefixStep(reply, keys, from, e.index + 1);
    assert keys[e.index + 1] == keys[1..][e.index];
  }

  /** Searching for the first `k` keys is searching for the first key and
      then for `k - 1` keys from its cursor. */
  lemma PrefixStep(reply: seq<char>, keys: seq<seq<char>>, from: nat, k: nat)
    requires 0 < k <= |keys|
    requires Find(reply, keys[0], from).Some?
    requires Find(reply, keys[0], from).value + |keys[0]| + 1 <= |reply|
    ensures var c := Find(reply, keys[0], from).value + |keys[0]| + 1;
            var before := Scan(reply, keys[..k], from);
            var tail := Scan(reply, keys[1..][..k - 1], c);
            && (before.Success? <==> tail.Success?)
            && (before.Success? ==> Prev(from, before.value, k) == Prev(c, tail.value, k - 1))
  {
    var pk := keys[..k];
    var c := Find(reply, keys[0], from).value + |keys[0]| + 1;
    assert pk[1..] == keys[1..][..k - 1];
    assert pk[0] == keys[0];
    var tail := Scan(reply, pk[1..], c);
    var before := Scan(reply, pk, from);
    if tail.Success? {
      assert before.value == [c] + tail.value;
    } else {
      assert before.Failure?;
    }
  }
}
