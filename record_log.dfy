/** The store file seen as a log: records are appended one after another
    behind the header, each addressed by its start offset and its size. */
module RecordLog {
  import opened Format

  /** Where a saved record lives: what `save` returns as `(start, size)`. */
  datatype Location = Location(start: nat, size: nat)

  /** The bytes that a read of `size` bytes after seeking to `start` returns:
      what the file holds from `start` on, short at the end of the file and
      empty past it; a negative size reads to the end of the file. */
  function ReadAt(c: seq<byte>, start: nat, size: int): (r: seq<byte>)
    ensures |r| == if start >= |c| then 0
                   else if size < 0 || start + size > |c| then |c| - start
                   else size
    ensures forall i :: 0 <= i < |r| ==> r[i] == c[start + i]
  {
    if start >= |c| then []
    else if size < 0 || start + size > |c| then c[start..]
    else c[start..start + size]
  }

  /** Reading back where an append went gives exactly the appended bytes. */
  lemma ReadAppended(c: seq<byte>, e: seq<byte>)
    ensures ReadAt(c + e, |c|, |e|) == e
  {
  }

  /** An append leaves every read that lies within the old contents as it was. */
  lemma ReadSurvivesAppend(c: seq<byte>, e: seq<byte>, start: nat, size: nat)
    requires start + size <= |c|
    ensures ReadAt(c + e, start, size) == ReadAt(c, start, size)
  {
  }

  /** The encodings `es` laid end to end. */
  function Concat(es: seq<seq<byte>>): seq<byte>
    decreases |es|
  {
    if es == [] then [] else es[0] + Concat(es[1..])
  }

  /** The contents and the locations that saving the encodings `es` one after
      another produces, starting from contents `c`. */
  function SaveAll(c: seq<byte>, es: seq<seq<byte>>): (r: (seq<byte>, seq<Location>))
    ensures |r.1| == |es|
    ensures r.0 == c + Concat(es)
    ensures |c| <= |r.0| && r.0[..|c|] == c
    decreases |es|
  {
    if es == [] then (c, [])
    else
      var rest := SaveAll(c + es[0], es[1..]);
      assert rest.0 == c + (es[0] + Concat(es[1..]));
      (rest.0, [Location(|c|, |es[0]|)] + rest.1)
  }

  /** One more save extends a run of saves exactly as a single `save` does:
      the new encoding goes at the end of the run's contents, and its
      location is (that end, its size). */
  lemma {:induction false} SaveAllExtend(c: seq<byte>, es: seq<seq<byte>>, e: seq<byte>)
    ensures var (final, locs) := SaveAll(c, es);
      SaveAll(c, es + [e]) == (final + e, locs + [Location(|final|, |e|)])
    decreases |es|
  {
    if es == [] {
      assert es + [e] == [e] && [e][0] == e && [e][1..] == [];
      assert SaveAll(c, [e]) == (SaveAll(c + e, []).0, [Location(|c|, |e|)] + SaveAll(c + e, []).1);
      assert [Location(|c|, |e|)] + [] == [] + [Location(|c|, |e|)];
    } else {
      assert (es + [e])[0] == es[0] && (es + [e])[1..] == es[1..] + [e];
      SaveAllExtend(c + es[0], es[1..], e);
      var rest := SaveAll(c + es[0], es[1..]);
      var first := Location(|c|, |es[0]|);
      assert SaveAll(c, es) == (rest.0, [first] + rest.1);
      assert SaveAll(c, es + [e]) == (rest.0 + e, [first] + (rest.1 + [Location(|rest.0|, |e|)]));
      assert [first] + (rest.1 + [Location(|rest.0|, |e|)]) == ([first] + rest.1) + [Location(|rest.0|, |e|)];
    }
  }

  /** Records are placed back to back: the first at the old end of file,
      each next one where the previous ends, each with its own size, and all
      inside the final contents. */
  lemma {:induction false} SaveAllPlacement(c: seq<byte>, es: seq<seq<byte>>)
    ensures var (final, locs) := SaveAll(c, es);
      (|es| > 0 ==> locs[0].start == |c|) &&
      (forall i :: 0 <= i < |es| ==> locs[i].size == |es[i]| && locs[i].start + locs[i].size <= |final|) &&
      (forall i :: 0 <= i < |es| - 1 ==> locs[i + 1].start == locs[i].start + locs[i].size)
    decreases |es|
  {
    if es != [] {
      SaveAllPlacement(c + es[0], es[1..]);
      var (final, locs) := SaveAll(c, es);
      var rest := SaveAll(c + es[0], es[1..]);
      assert locs == [Location(|c|, |es[0]|)] + rest.1;
      forall i | 0 <= i < |es|
        ensures locs[i].size == |es[i]| && locs[i].start + locs[i].size <= |final|
      {
        if i > 0 { assert locs[i] == rest.1[i - 1] && es[i] == es[1..][i - 1]; }
      }
    }
  }

  /** Every record saved in a sequence of saves reads back as exactly its
      bytes from the final contents: later saves do not disturb it. */
  lemma {:induction false} SaveAllReadBack(c: seq<byte>, es: seq<seq<byte>>)
    ensures var (final, locs) := SaveAll(c, es);
      forall i :: 0 <= i < |es| ==> ReadAt(final, locs[i].start, locs[i].size) == es[i]
    decreases |es|
  {
    if es != [] {
      SaveAllReadBack(c + es[0], es[1..]);
      var (final, locs) := SaveAll(c, es);
      var rest := SaveAll(c + es[0], es[1..]);
      assert locs == [Location(|c|, |es[0]|)] + rest.1;
      forall i | 0 <= i < |es|
        ensures ReadAt(final, locs[i].start, locs[i].size) == es[i]
      {
        if i == 0 {
          ReadAppended(c, es[0]);
          ReadSurvivesAppend(c + es[0], final[|c + es[0]|..], |c|, |es[0]|);
          assert final == (c + es[0]) + final[|c + es[0]|..];
        } else {
          assert locs[i] == rest.1[i - 1] && es[i] == es[1..][i - 1];
        }
      }
    }
  }
}
