/** Tables that hand out one slot per key, in order of first use. Both
    identifier binders are such tables; what they promise is proved here once.
  */
module FirstUses {
  import opened Options

  /** What a slot stands for: a key that later requests share, or `None` for
      an entry nobody can ask for again.
    */
  type Table<K> = seq<Option<K>>

  /** A request that is an error, that wants an entry of its own, or that shares one. */
  datatype Ask<K> = Refused | Fresh | Shared(key: K)

  ghost function Find<K>(table: Table<K>, key: K): (slot: nat)
    ensures slot <= |table|
    ensures forall i :: 0 <= i < slot ==> table[i] != Some(key)
    ensures slot < |table| ==> table[slot] == Some(key)
  {
    if |table| == 0 || table[0] == Some(key) then 0 else 1 + Find(table[1..], key)
  }

  lemma {:induction false} FindAppended<K>(table: Table<K>, entry: Option<K>, key: K)
    ensures Find(table + [entry], key) ==
            if Find(table, key) < |table| then Find(table, key)
            else if entry == Some(key) then |table| else |table| + 1
  {
    if |table| == 0 {
      assert table + [entry] == [entry];
    } else {
      FindAppended(table[1..], entry, key);
      assert (table + [entry])[1..] == table[1..] + [entry];
    }
  }

  ghost function SlotOf<K>(table: Table<K>, ask: Ask<K>): (slot: nat)
    ensures slot <= |table|
  {
    if ask.Shared? then Find(table, ask.key) else |table|
  }

  ghost function EntryOf<K>(ask: Ask<K>): Option<K> {
    if ask.Shared? then Some(ask.key) else None
  }

  ghost function Grow<K>(table: Table<K>, ask: Ask<K>): Table<K> {
    if ask.Refused? || SlotOf(table, ask) < |table| then table else table + [EntryOf(ask)]
  }

  ghost function Blank<K>(n: nat): Table<K> {
    seq(n, i => None)
  }

  /** The table after the first `n` requests of `history`. */
  ghost function After<K>(blanks: nat, history: seq<Ask<K>>, n: nat): Table<K>
    requires n <= |history|
  {
    if n == 0 then Blank(blanks) else Grow(After(blanks, history, n - 1), history[n - 1])
  }

  /** The slot that request `i` is given, or none. */
  ghost function Answer<K>(blanks: nat, history: seq<Ask<K>>, i: nat): Option<nat>
    requires i < |history|
  {
    if history[i].Refused? then None else Some(SlotOf(After(blanks, history, i), history[i]))
  }

  ghost predicate Shares<K>(history: seq<Ask<K>>, i: nat, j: nat)
    requires i < |history| && j < |history|
  {
    history[i].Shared? && history[i] == history[j]
  }

  ghost predicate Sharp<K>(table: Table<K>) {
    forall i, j :: 0 <= i < j < |table| && table[i].Some? ==> table[i] != table[j]
  }

  ghost predicate Prefix<K>(s: Table<K>, t: Table<K>) {
    |s| <= |t| && s == t[..|s|]
  }

  lemma {:induction false} AfterIsSharp<K>(blanks: nat, history: seq<Ask<K>>, n: nat)
    requires n <= |history|
    ensures Sharp(After(blanks, history, n))
  {
    if n == 0 {
    } else {
      AfterIsSharp(blanks, history, n - 1);
    }
  }

  /** Entries are never moved or dropped. */
  lemma {:induction false} AfterOnlyGrows<K>(blanks: nat, history: seq<Ask<K>>, m: nat, n: nat)
    requires m <= n <= |history|
    ensures Prefix(After(blanks, history, m), After(blanks, history, n))
  {
    if m == n {
    } else {
      AfterOnlyGrows(blanks, history, m, n - 1);
    }
  }

  lemma AnswerHolds<K>(blanks: nat, history: seq<Ask<K>>, i: nat, n: nat)
    requires i < n <= |history| && !history[i].Refused?
    ensures var slot := Answer(blanks, history, i).value;
            slot < |After(blanks, history, n)| && After(blanks, history, n)[slot] == EntryOf(history[i])
  {
    AfterOnlyGrows(blanks, history, i + 1, n);
  }

  /** Two requests get the same answer exactly when they name the same key. */
  lemma AnswersEqualIff<K>(blanks: nat, history: seq<Ask<K>>, i: nat, j: nat)
    requires i < j < |history|
    ensures Answer(blanks, history, i).Some? && Answer(blanks, history, i) == Answer(blanks, history, j) <==>
            Shares(history, i, j)
  {
    if !history[i].Refused? {
      AnswerHolds(blanks, history, i, j);
      AfterIsSharp(blanks, history, j);
    }
  }

  /** The entries that the first `n` requests ask for and that are new, in order. */
  ghost function NewEntries<K>(history: seq<Ask<K>>, n: nat): seq<Option<K>>
    requires n <= |history|
  {
    if n == 0 then
      []
    else if history[n - 1].Refused? || (history[n - 1].Shared? && history[n - 1] in history[..n - 1]) then
      NewEntries(history, n - 1)
    else
      NewEntries(history, n - 1) + [EntryOf(history[n - 1])]
  }

  lemma {:induction false} NewEntriesElements<K>(history: seq<Ask<K>>, n: nat)
    requires n <= |history|
    ensures forall k :: Some(k) in NewEntries(history, n) <==> Shared(k) in history[..n]
  {
    if n == 0 {
    } else {
      NewEntriesElements(history, n - 1);
      assert history[..n] == history[..n - 1] + [history[n - 1]];
    }
  }

  /** The table is the blanks followed by the new entries in request order. */
  lemma {:induction false} TableListsNewEntries<K>(blanks: nat, history: seq<Ask<K>>, n: nat)
    requires n <= |history|
    ensures After(blanks, history, n) == Blank(blanks) + NewEntries(history, n)
  {
    if n == 0 {
    } else {
      TableListsNewEntries(blanks, history, n - 1);
      NewEntriesElements(history, n - 1);
      var table, ask := After(blanks, history, n - 1), history[n - 1];
      if ask.Shared? {
        assert Some(ask.key) in table <==> ask in history[..n - 1];
      }
    }
  }

  // ---------- two tables side by side ----------

  ghost predicate SameRefusals<J, K>(left: seq<Ask<J>>, right: seq<Ask<K>>)
    requires |left| == |right|
  {
    forall i :: 0 <= i < |left| ==> (left[i].Refused? <==> right[i].Refused?)
  }

  ghost predicate SameSharing<J, K>(left: seq<Ask<J>>, right: seq<Ask<K>>)
    requires |left| == |right|
  {
    forall i, j :: 0 <= i < j < |left| ==> (Shares(left, i, j) <==> Shares(right, i, j))
  }

  /** Both answers are missing, or they are equally far from the first slots. */
  ghost predicate Matches(m: nat, a: Option<nat>, n: nat, b: Option<nat>) {
    (a.None? && b.None?) || (a.Some? && b.Some? && a.value - m == b.value - n)
  }

  ghost predicate SameAnswers<J, K>(m: nat, left: seq<Ask<J>>, n: nat, right: seq<Ask<K>>, count: nat)
    requires count <= |left| == |right|
  {
    forall i :: 0 <= i < count ==> Matches(m, Answer(m, left, i), n, Answer(n, right, i))
  }

  lemma Repeated<K>(blanks: nat, history: seq<Ask<K>>, i: nat)
    requires i < |history| && history[i].Shared?
    ensures Answer(blanks, history, i).value < |After(blanks, history, i)| <==>
            exists j :: 0 <= j < i && Shares(history, j, i)
  {
    TableListsNewEntries(blanks, history, i);
    NewEntriesElements(history, i);
    var earlier, table := history[..i], After(blanks, history, i);
    if Answer(blanks, history, i).value < |table| {
      assert Some(history[i].key) in NewEntries(history, i);
      var j :| 0 <= j < |earlier| && earlier[j] == history[i];
      assert Shares(history, j, i);
    }
    if j :| 0 <= j < i && Shares(history, j, i) {
      assert earlier[j] in earlier;
      var k :| 0 <= k < |NewEntries(history, i)| && NewEntries(history, i)[k] == Some(history[i].key);
      assert table[blanks + k] == Some(history[i].key);
    }
  }

  /** The answer to a request that shares with an earlier one, or with none. */
  lemma SharedAnswer<J, K>(m: nat, left: seq<Ask<J>>, n: nat, right: seq<Ask<K>>, i: nat)
    requires i < |left| == |right| && left[i].Shared? && right[i].Shared?
    requires SameSharing(left, right)
    requires |After(m, left, i)| - m == |After(n, right, i)| - n
    requires SameAnswers(m, left, n, right, i)
    ensures Matches(m, Answer(m, left, i), n, Answer(n, right, i))
    ensures |After(m, left, i + 1)| - m == |After(n, right, i + 1)| - n
  {
    Repeated(m, left, i);
    Repeated(n, right, i);
    if j :| 0 <= j < i && Shares(left, j, i) {
      AnswersEqualIff(m, left, j, i);
      AnswersEqualIff(n, right, j, i);
      assert Matches(m, Answer(m, left, j), n, Answer(n, right, j));
    }
  }

  lemma SharedAlone<J, K>(m: nat, left: seq<Ask<J>>, n: nat, right: seq<Ask<K>>, i: nat)
    requires i < |left| == |right| && left[i].Shared? != right[i].Shared? && !left[i].Refused? && !right[i].Refused?
    requires SameSharing(left, right)
    requires |After(m, left, i)| - m == |After(n, right, i)| - n
    ensures Matches(m, Answer(m, left, i), n, Answer(n, right, i))
    ensures |After(m, left, i + 1)| - m == |After(n, right, i + 1)| - n
  {
    if left[i].Shared? {
      Repeated(m, left, i);
    } else {
      Repeated(n, right, i);
    }
  }

  lemma LastAnswer<J, K>(m: nat, left: seq<Ask<J>>, n: nat, right: seq<Ask<K>>, i: nat)
    requires i < |left| == |right|
    requires SameSharing(left, right) && SameRefusals(left, right)
    requires |After(m, left, i)| - m == |After(n, right, i)| - n
    requires SameAnswers(m, left, n, right, i)
    ensures Matches(m, Answer(m, left, i), n, Answer(n, right, i))
    ensures |After(m, left, i + 1)| - m == |After(n, right, i + 1)| - n
  {
    if left[i].Shared? && right[i].Shared? {
      SharedAnswer(m, left, n, right, i);
    } else if left[i].Shared? || right[i].Shared? {
      SharedAlone(m, left, n, right, i);
    }
  }

  lemma {:induction false} SameSharingSameAnswers<J, K>(
    m: nat, left: seq<Ask<J>>, n: nat, right: seq<Ask<K>>, count: nat)
    requires count <= |left| == |right|
    requires SameSharing(left, right) && SameRefusals(left, right)
    ensures |After(m, left, count)| - m == |After(n, right, count)| - n
    ensures SameAnswers(m, left, n, right, count)
  {
    if count == 0 {
    } else {
      SameSharingSameAnswers(m, left, n, right, count - 1);
      LastAnswer(m, left, n, right, count - 1);
    }
  }

  /** Two tables answer a run of requests alike, up to their first slot, exactly when they agree
      on which requests are errors and on which share a key. */
  lemma SameAnswersIff<J, K>(m: nat, left: seq<Ask<J>>, n: nat, right: seq<Ask<K>>)
    requires |left| == |right|
    ensures SameAnswers(m, left, n, right, |left|) <==> SameRefusals(left, right) && SameSharing(left, right)
  {
    if SameRefusals(left, right) && SameSharing(left, right) {
      SameSharingSameAnswers(m, left, n, right, |left|);
    } else if SameRefusals(left, right) {
      var i, j :| 0 <= i < j < |left| && Shares(left, i, j) != Shares(right, i, j);
      AnswersEqualIff(m, left, i, j);
      AnswersEqualIff(n, right, i, j);
      assert !(Matches(m, Answer(m, left, i), n, Answer(n, right, i)) &&
               Matches(m, Answer(m, left, j), n, Answer(n, right, j)));
    } else {
      var i :| 0 <= i < |left| && left[i].Refused? != right[i].Refused?;
      assert !Matches(m, Answer(m, left, i), n, Answer(n, right, i));
    }
  }
}
