/**
 * The retry loops around `input()`: the lines the user types are given as a
 * sequence, and a prompt asks again until a line is accepted.
 */
module Prompts {
  import opened Wrappers

  /**
   * Read lines until `parse` accepts one. The answer is the position of the first
   * accepted line and what it parsed to; `None` when the user never gives one.
   */
  method FirstAccepted<T>(lines: seq<string>, parse: string -> Option<T>) returns (r: Option<(nat, T)>)
    ensures r.Some? ==> r.value.0 < |lines| && parse(lines[r.value.0]) == Some(r.value.1)
    ensures r.Some? ==> forall j :: 0 <= j < r.value.0 ==> parse(lines[j]).None?
    ensures r.None? <==> forall j :: 0 <= j < |lines| ==> parse(lines[j]).None?
  {
    var i := 0;
    while i < |lines|
      invariant i <= |lines|
      invariant forall j :: 0 <= j < i ==> parse(lines[j]).None?
    {
      var answer := parse(lines[i]);
      if answer.Some? {
        return Some((i, answer.value));
      }
      i := i + 1;
    }
    return None;
  }
}
