/**
 * The uniform table a shader program builds from the driver's report of its
 * active uniforms (src/shaders/shader_program.cpp, LoadUniforms and
 * GetUniformName). The table maps a uniform name to the index under which
 * the driver reported it; that index is what the program later uses as the
 * uniform's location.
 */
module UniformTable {
  import opened Wrappers

  /** Size of the character buffer the name query fills, terminator included. */
  const NameBufferSize: nat := 32

  /**
   * The name GetUniformName returns for a uniform whose full name is
   * `reported`: the driver writes at most NameBufferSize - 1 characters
   * followed by the terminator, so longer names come back cut short.
   */
  function UniformName(reported: string): (r: string)
    ensures |r| < NameBufferSize
    ensures r <= reported
    ensures |reported| < NameBufferSize ==> r == reported
    ensures |reported| >= NameBufferSize ==> |r| == NameBufferSize - 1
  {
    if |reported| < NameBufferSize then reported else reported[..NameBufferSize - 1]
  }

  /**
   * Reference definition of "the index that wins": the largest index below
   * `n` whose name, as the program reads it back, is `key`.
   */
  function LastIndex(names: seq<string>, n: nat, key: string): (r: Option<nat>)
    requires n <= |names|
    ensures r.Some? ==> r.value < n && UniformName(names[r.value]) == key
    ensures r.Some? ==> forall j :: r.value < j < n ==> UniformName(names[j]) != key
    ensures r.None? ==> forall j :: 0 <= j < n ==> UniformName(names[j]) != key
  {
    if n == 0 then None
    else if UniformName(names[n - 1]) == key then Some(n - 1)
    else LastIndex(names, n - 1, key)
  }

  /**
   * The table after the scan has written the first `n` reported uniforms
   * into `table`, one assignment per index in increasing order. The table is
   * not cleared first.
   */
  function LoadedTable(table: map<string, int>, names: seq<string>, n: nat): (r: map<string, int>)
    requires n <= |names|
    ensures table.Keys <= r.Keys
    ensures forall key :: key in r && key !in table ==> |key| < NameBufferSize
  {
    if n == 0 then table
    else LoadedTable(table, names, n - 1)[UniformName(names[n - 1]) := n - 1]
  }

  /**
   * What the scan leaves under any one key: the last index reporting that
   * key if there is one, and otherwise whatever the table held before.
   */
  lemma {:induction false} LoadedTableAt(table: map<string, int>, names: seq<string>, n: nat, key: string)
    requires n <= |names|
    ensures key in LoadedTable(table, names, n) <==> key in table || LastIndex(names, n, key).Some?
    ensures LastIndex(names, n, key).Some? ==>
              LoadedTable(table, names, n)[key] == LastIndex(names, n, key).value
    ensures LastIndex(names, n, key).None? && key in table ==>
              LoadedTable(table, names, n)[key] == table[key]
  {
    if n > 0 {
      LoadedTableAt(table, names, n - 1, key);
    }
  }

  /**
   * Last write wins: every reported uniform is in the table, under the
   * largest index that reported the same (truncated) name.
   */
  lemma {:induction false} LastWriteWins(table: map<string, int>, names: seq<string>, n: nat, i: nat)
    requires i < n <= |names|
    ensures UniformName(names[i]) in LoadedTable(table, names, n)
    ensures var loc := LoadedTable(table, names, n)[UniformName(names[i])];
              i <= loc < n && UniformName(names[loc]) == UniformName(names[i]) &&
              forall j :: loc < j < n ==> UniformName(names[j]) != UniformName(names[i])
  {
    LoadedTableAt(table, names, n, UniformName(names[i]));
  }

  /**
   * Every entry the scan adds or changes has a location in [0, n) and a
   * name of at most NameBufferSize - 1 characters.
   */
  lemma {:induction false} WrittenEntries(table: map<string, int>, names: seq<string>, n: nat, key: string)
    requires n <= |names|
    requires key in LoadedTable(table, names, n)
    requires key !in table || LoadedTable(table, names, n)[key] != table[key]
    ensures 0 <= LoadedTable(table, names, n)[key] < n
    ensures UniformName(names[LoadedTable(table, names, n)[key]]) == key
    ensures |key| < NameBufferSize
  {
    LoadedTableAt(table, names, n, key);
  }

  /**
   * Names the current report does not mention keep their old entry, or their
   * absence: the scan never removes or rewrites them.
   */
  lemma {:induction false} UnreportedUnchanged(table: map<string, int>, names: seq<string>, n: nat, key: string)
    requires n <= |names|
    requires forall j :: 0 <= j < n ==> UniformName(names[j]) != key
    ensures key in LoadedTable(table, names, n) <==> key in table
    ensures key in table ==> LoadedTable(table, names, n)[key] == table[key]
  {
    LoadedTableAt(table, names, n, key);
  }

  /** When the truncated names are pairwise distinct, each uniform's location is its own index. */
  lemma {:induction false} DistinctNamesKeepOwnIndex(table: map<string, int>, names: seq<string>, n: nat, i: nat)
    requires i < n <= |names|
    requires forall j, k :: 0 <= j < k < n ==> UniformName(names[j]) != UniformName(names[k])
    ensures UniformName(names[i]) in LoadedTable(table, names, n)
    ensures LoadedTable(table, names, n)[UniformName(names[i])] == i
  {
    LoadedTableAt(table, names, n, UniformName(names[i]));
  }

  /** Scanning the same report twice leaves the same table as scanning it once. */
  lemma {:induction false} LoadIdempotent(table: map<string, int>, names: seq<string>, n: nat)
    requires n <= |names|
    ensures LoadedTable(LoadedTable(table, names, n), names, n) == LoadedTable(table, names, n)
  {
    var once := LoadedTable(table, names, n);
    var twice := LoadedTable(once, names, n);
    forall key
      ensures key in twice <==> key in once
      ensures key in once ==> twice[key] == once[key]
    {
      LoadedTableAt(table, names, n, key);
      LoadedTableAt(once, names, n, key);
    }
  }

  /**
   * A relink whose report no longer mentions a uniform leaves the old entry
   * in place: after "a" and "b" are loaded at indices 0 and 1, a second scan
   * that reports only "b" maps both "a" and "b" to location 0.
   */
  lemma RelinkKeepsStaleEntry()
    ensures var first := LoadedTable(map[], ["a", "b"], 2);
            var second := LoadedTable(first, ["b"], 1);
            "a" in second && second["a"] == 0 && second["b"] == 0
  {
    var first := LoadedTable(map[], ["a", "b"], 2);
    assert first == map["a" := 0, "b" := 1];
  }
}
