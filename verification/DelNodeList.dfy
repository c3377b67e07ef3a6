/** The persistent free stack (DelNodeList.cpp): a list in memory and its image in a file
    of 64-bit words, the count first and then the entries. */
module FreeStacks {

  // The file holds the list xs if its first word is the length and the entries follow.
  // Words further on are left over from longer lists.
  ghost predicate Image(words: seq<nat>, xs: seq<nat>) {
    |words| > |xs| && words[0] == |xs| && words[1..|xs| + 1] == xs
  }

  // A file that some list was written to.
  ghost predicate Written(words: seq<nat>) {
    |words| > 0 && words[0] < |words|
  }

  class DelNodeList {
    var dList: seq<nat>
    var words: seq<nat>

    ghost predicate Valid() reads this {
      Image(words, dList)
    }

    // Opening the file again gives the list.
    lemma WordsWritten()
      requires Valid()
      ensures Written(words) && words[1..words[0] + 1] == dList
    {
      ImageWritten(words, dList);
    }

    // A new file: the count word only.
    constructor Create()
      ensures Valid() && dList == []
    {
      dList := [];
      words := [0];
    }

    // Reopening: count words are read back one by one.
    constructor Open(file: seq<nat>)
      requires Written(file)
      ensures Valid() && words == file && dList == file[1..file[0] + 1]
    {
      words := file;
      dList := [];
      new;
      var size := words[0];
      var i := 0;
      while i < size
        invariant 0 <= i <= size && words == file && size == file[0]
        invariant dList == file[1..i + 1]
      {
        dList := dList + [words[i + 1]];
        i := i + 1;
      }
    }

    method SetSize(newSize: nat)
      requires |words| > 0
      modifies `words
      ensures words == old(words)[0 := newSize]
    {
      words := words[0 := newSize];
    }

    // Writing at the end of the file extends it.
    method SetValue(value: nat, offset: nat)
      requires offset + 1 <= |words|
      modifies `words
      ensures words == if offset + 1 < |old(words)| then old(words)[offset + 1 := value] else old(words) + [value]
    {
      words := if offset + 1 < |words| then words[offset + 1 := value] else words + [value];
    }

    method Push(value: nat)
      requires Valid()
      modifies this
      ensures Valid() && dList == old(dList) + [value] && words == FileStep(old(words), Call.Push(value))
    {
      SetSize(|dList| + 1);
      SetValue(value, |dList|);
      dList := dList + [value];
    }

    method Pop() returns (ok: bool, result: nat)
      requires Valid()
      modifies this
      ensures Valid() && ok == (old(dList) != [])
      ensures if ok then old(dList) == dList + [result] else dList == old(dList) && result == 0
      ensures words == FileStep(old(words), Call.Pop)
    {
      if |dList| == 0 {
        return false, 0;
      }
      result := dList[|dList| - 1];
      SetSize(|dList| - 1);
      dList := dList[..|dList| - 1];
      ok := true;
    }
  }

  // ----- runs -----

  datatype Call = Push(value: nat) | Pop

  // What a run of calls does to the file alone.
  function FileStep(words: seq<nat>, c: Call): seq<nat> requires Written(words) {
    match c
    case Push(v) =>
      var n := words[0];
      var w := words[0 := n + 1];
      if n + 1 < |w| then w[n + 1 := v] else w + [v]
    case Pop => if words[0] == 0 then words else words[0 := words[0] - 1]
  }

  function StackStep(xs: seq<nat>, c: Call): seq<nat> {
    match c
    case Push(v) => xs + [v]
    case Pop => if xs == [] then [] else xs[..|xs| - 1]
  }

  function Stack(cs: seq<Call>): seq<nat> {
    if cs == [] then [] else StackStep(Stack(cs[..|cs| - 1]), cs[|cs| - 1])
  }

  lemma ImageWritten(words: seq<nat>, xs: seq<nat>)
    requires Image(words, xs)
    ensures Written(words) && words[1..words[0] + 1] == xs
  {
  }

  lemma FileStepImage(words: seq<nat>, xs: seq<nat>, c: Call)
    requires Image(words, xs)
    ensures Written(words) && Image(FileStep(words, c), StackStep(xs, c))
  {
    ImageWritten(words, xs);
    var w, ys := FileStep(words, c), StackStep(xs, c);
    assert |w| > |ys| && w[0] == |ys|;
    forall i | 0 <= i < |ys|
      ensures w[1..|ys| + 1][i] == ys[i]
    {
      assert i < |xs| ==> words[1..|xs| + 1][i] == words[i + 1];
    }
  }

  // The file after a run of calls on a new list.
  ghost function FileAfter(cs: seq<Call>): (words: seq<nat>)
    ensures Image(words, Stack(cs))
  {
    if cs == [] then [0]
    else
      var w := FileAfter(cs[..|cs| - 1]);
      FileStepImage(w, Stack(cs[..|cs| - 1]), cs[|cs| - 1]);
      FileStep(w, cs[|cs| - 1])
  }

  // After any run of push and pop, reopening the file rebuilds exactly the list.
  lemma ReopenAfterRun(cs: seq<Call>)
    ensures Written(FileAfter(cs)) && FileAfter(cs)[1..FileAfter(cs)[0] + 1] == Stack(cs)
  {
    ImageWritten(FileAfter(cs), Stack(cs));
  }

  // Last in, first out: pop undoes push.
  lemma PopUndoesPush(cs: seq<Call>, v: nat)
    ensures Stack(cs + [Push(v), Pop]) == Stack(cs)
  {
    var ds := cs + [Push(v), Pop];
    var es := cs + [Push(v)];
    assert ds[..|ds| - 1] == es && es[..|es| - 1] == cs;
  }
}
