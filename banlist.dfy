/** Loading the banlist: every line of the banlist file is trimmed and the
    trimmed lines are collected into a set, so duplicates collapse. */
module Banlist {
  import opened Text

  /** `lines.map(trim).collect::<HashSet<_>>()`: the lines are inserted one
      after another, in file order. The result holds exactly the trimmed
      lines of the file. */
  function LoadBanSet(lines: seq<string>): (r: set<string>)
    ensures r == set l | l in lines :: Trim(l)
  {
    if lines == [] then {}
    else
      var init, last := lines[..|lines| - 1], lines[|lines| - 1];
      assert lines == init + [last];
      LoadBanSet(init) + {Trim(last)}
  }

  /** Every entry of the banset is trimmed, so trimming it again leaves it
      unchanged. */
  lemma BanSetTrimmed(lines: seq<string>)
    ensures forall x :: x in LoadBanSet(lines) ==> IsTrimmed(x) && Trim(x) == x
  {
    forall x | x in LoadBanSet(lines)
      ensures IsTrimmed(x) && Trim(x) == x
    {
      TrimOfTrimmed(x);
    }
  }

  /** Reordering the banlist or repeating its lines gives the same banset:
      only which lines occur matters. */
  lemma BanSetOrderInsensitive(a: seq<string>, b: seq<string>)
    requires forall l :: l in a <==> l in b
    ensures LoadBanSet(a) == LoadBanSet(b)
  {
  }
}
