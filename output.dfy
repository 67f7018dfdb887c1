/** What an exporter leaves behind: the strings it wrote, in order, and the exception that stopped it. */
module Output {
  import opened Wrappers
  import opened Records

  /**
   * `writes` are the arguments of the successive `file.write` calls; the file's text is their
   * concatenation. The file is opened with `mode='w'`, so an exception leaves the writes made so
   * far in the file and `failure` names the exception.
   */
  datatype Written = Written(writes: seq<string>, failure: Option<Error>)

  /**
   * A loop that, from position `i` on, writes each computed line in turn and stops at the first
   * line whose computation raised.
   */
  function WritesFrom(lines: seq<Result<string, Error>>, i: nat): (w: Written)
    requires i <= |lines|
    ensures |w.writes| <= |lines| - i
    ensures w.failure.Some? ==> exists k | i <= k < |lines| :: lines[k] == Err(w.failure.value)
    decreases |lines| - i
  {
    if i == |lines| then Written([], None)
    else
      match lines[i]
      case Err(e) => Written([], Some(e))
      case Ok(line) =>
        var rest := WritesFrom(lines, i + 1);
        Written([line] + rest.writes, rest.failure)
  }

  /** The loop runs to the end iff no line raises, and then it writes every line in order. */
  lemma {:induction false} WritesFromComplete(lines: seq<Result<string, Error>>, i: nat)
    requires i <= |lines|
    ensures var w := WritesFrom(lines, i);
      (w.failure == None <==> forall k | i <= k < |lines| :: lines[k].Ok?)
    ensures var w := WritesFrom(lines, i);
      w.failure == None ==>
        |w.writes| == |lines| - i &&
        forall k | i <= k < |lines| :: lines[k] == Ok(w.writes[k - i])
    decreases |lines| - i
  {
    if i < |lines| {
      WritesFromComplete(lines, i + 1);
      var w := WritesFrom(lines, i);
      var rest := WritesFrom(lines, i + 1);
      if lines[i].Ok? {
        assert w == Written([lines[i].value] + rest.writes, rest.failure);
        if w.failure == None {
          forall k | i <= k < |lines| ensures lines[k] == Ok(w.writes[k - i]) {
            if k > i {
              assert w.writes[k - i] == rest.writes[k - (i + 1)];
            }
          }
        }
      }
    }
  }

  /**
   * The loop stops at the first line `j` that raises: it has written the lines before `j`
   * and reports the exception of line `j`.
   */
  lemma {:induction false} WritesFromStops(lines: seq<Result<string, Error>>, i: nat, j: nat)
    requires i <= j < |lines|
    requires forall k | i <= k < j :: lines[k].Ok?
    requires lines[j].Err?
    ensures WritesFrom(lines, i) ==
      Written(seq(j - i, k requires 0 <= k < j - i => lines[i + k].value), Some(lines[j].error))
    decreases j - i
  {
    if i < j {
      WritesFromStops(lines, i + 1, j);
      var tail := seq(j - (i + 1), k requires 0 <= k < j - (i + 1) => lines[i + 1 + k].value);
      assert [lines[i].value] + tail == seq(j - i, k requires 0 <= k < j - i => lines[i + k].value);
    }
  }
}
