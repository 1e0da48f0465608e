/** POSIX path handling as Python does it: `os.path.join` and the `name`
    and `stem` of a `pathlib.Path`. */
module Paths {
  import opened Wrappers
  import opened Text

  /** `os.path.join(base, part)` on POSIX: an absolute `part` replaces what
      came before; otherwise a `/` is put between the two unless `base` is
      empty or already ends in `/`. */
  function JoinPath(base: string, part: string): (r: string)
    ensures (|part| > 0 && part[0] == '/') ==> r == part
    ensures (|part| == 0 || part[0] != '/') ==> base <= r
    ensures (|part| == 0 || part[0] != '/') ==>
              (|r| == |base| + |part| || (|r| == |base| + 1 + |part| && r[|base|] == '/'))
              && (|r| == |base| + 1 + |part| <==> base != [] && base[|base| - 1] != '/')
  {
    if |part| > 0 && part[0] == '/' then part
    else if base == [] || base[|base| - 1] == '/' then base + part
    else base + "/" + part
  }

  /** A joined path always ends with the part joined on. */
  lemma JoinPathEndsWithPart(base: string, part: string)
    ensures var r := JoinPath(base, part);
            |part| <= |r| && r[|r| - |part|..] == part
  {
  }

  /** The path components `pathlib` keeps: empty ones (from `//` or a
      trailing `/`) and `.` are dropped. */
  function Components(pieces: seq<string>): (cs: seq<string>)
    ensures forall k :: 0 <= k < |cs| ==> cs[k] != "" && cs[k] != "." && cs[k] in pieces
  {
    if pieces == [] then []
    else
      var last := pieces[|pieces| - 1];
      var front := Components(pieces[..|pieces| - 1]);
      if last == "" || last == "." then front else front + [last]
  }

  /** `Path(p).name`: the final component, or `""` when there is none (as
      for `"/"` or `"."`). */
  function PathName(p: string): (name: string)
    ensures '/' !in name && name != "."
  {
    var cs := Components(Split(p, '/'));
    if cs == [] then "" else cs[|cs| - 1]
  }

  /** `s.rfind(c)`: the last index holding `c`. */
  function LastIndexOf(s: string, c: char): (r: Option<nat>)
    ensures r.None? <==> c !in s
    ensures r.Some? ==> r.value < |s| && s[r.value] == c && c !in s[r.value + 1..]
  {
    if s == [] then None
    else if s[|s| - 1] == c then Some(|s| - 1)
    else
      var r := LastIndexOf(s[..|s| - 1], c);
      assert s == s[..|s| - 1] + [s[|s| - 1]];
      r
  }

  /** `Path(p).stem`: the name without its last suffix. A dot that opens
      the name (`.bashrc`) or ends it (`take.`) does not start a suffix, as
      in `pathlib` up to Python 3.13 (Python 3.14 counts a trailing dot as
      a suffix). */
  function PathStem(p: string): (stem: string)
  {
    StemOf(PathName(p))
  }

  /** The stem of a single name: everything before its last dot, when that
      dot is neither the first nor the last character. */
  function StemOf(name: string): (stem: string)
    ensures stem <= name
    ensures stem == name || (0 < |stem| < |name| - 1 && name[|stem|] == '.'
                             && '.' !in name[|stem| + 1..])
    ensures stem == name <==> (name == [] || '.' !in name[1..] || name[|name| - 1] == '.')
  {
    var i := LastIndexOf(name, '.');
    if i.Some? && 0 < i.value < |name| - 1 then
      assert name[1..][i.value - 1] == '.';
      name[..i.value]
    else
      assert i.Some? && i.value == 0 ==> name[1..] == name[i.value + 1..];
      name
  }

  /** Joining a plain file or directory name onto any base makes that name
      the final component of the result. */
  lemma NameOfJoin(base: string, part: string)
    requires part != "" && part != "." && '/' !in part
    ensures PathName(JoinPath(base, part)) == part
  {
    var r := JoinPath(base, part);
    assert part[0] != '/';
    var front: string;
    if base == [] {
      assert r == part;
      assert Split(r, '/') == [part] by {
        SplitJoin([part], '/');
      }
      assert [part][..0] == [];
      front := [];
    } else if base[|base| - 1] == '/' {
      front := base[..|base| - 1];
      assert r == front + ['/'] + part;
    } else {
      front := base;
      assert r == front + ['/'] + part;
    }
    if base != [] {
      SplitAround(front, part, '/');
      assert Split(part, '/') == [part] by {
        SplitJoin([part], '/');
      }
      var pieces := Split(front, '/') + [part];
      assert Split(r, '/') == pieces;
      assert pieces[..|pieces| - 1] == Split(front, '/');
    }
  }

  /** `pathlib` keeps components in order: the components of two runs of
      pieces are those of the first followed by those of the second. */
  lemma {:induction false} ComponentsAppend(a: seq<string>, b: seq<string>)
    ensures Components(a + b) == Components(a) + Components(b)
    decreases |b|
  {
    if b == [] {
      assert a + b == a;
    } else {
      var n := |b| - 1;
      assert (a + b)[..|a + b| - 1] == a + b[..n];
      assert (a + b)[|a + b| - 1] == b[n];
      ComponentsAppend(a, b[..n]);
    }
  }

  /** A single piece is kept exactly when it is neither empty nor `.`. */
  lemma ComponentsOne(piece: string)
    ensures Components([piece]) == if piece == "" || piece == "." then [] else [piece]
  {
    assert [piece][..0] == [];
  }

  /** There are no components exactly when every piece is empty or `.`. */
  lemma {:induction false} NoComponents(pieces: seq<string>)
    ensures Components(pieces) == [] <==> forall k :: 0 <= k < |pieces| ==> pieces[k] == "" || pieces[k] == "."
  {
    if pieces != [] {
      var n := |pieces| - 1;
      var front := pieces[..n];
      NoComponents(front);
      assert forall k :: 0 <= k < n ==> front[k] == pieces[k];
    }
  }

  /** Every piece after the `j`-th is empty or `.`. */
  predicate OnlyDroppedAfter(pieces: seq<string>, j: int) {
    forall l :: 0 <= l < |pieces| && j < l ==> pieces[l] == "" || pieces[l] == "."
  }

  /** The last component is a piece after which only empty or `.` pieces
      follow; `j` is its index. */
  lemma {:induction false} LastComponent(pieces: seq<string>) returns (j: nat)
    requires Components(pieces) != []
    ensures var cs := Components(pieces);
            j < |pieces| && pieces[j] == cs[|cs| - 1] && OnlyDroppedAfter(pieces, j)
  {
    var n := |pieces| - 1;
    var front := pieces[..n];
    var cs := Components(pieces);
    if pieces[n] == "" || pieces[n] == "." {
      assert cs == Components(front);
      j := LastComponent(front);
      assert pieces[j] == front[j];
      forall l | j < l < |pieces| ensures pieces[l] == "" || pieces[l] == "." {
        if l < n { assert front[l] == pieces[l]; }
      }
    } else {
      j := n;
      assert cs[|cs| - 1] == pieces[n];
    }
  }

  /** `Path(p).name` is the last `/`-separated piece of `p` that is neither
      empty nor `.`, or `""` when every piece is. */
  lemma PathNameIsLastPiece(p: string)
    ensures var pieces := Split(p, '/');
            && (PathName(p) == "" <==> OnlyDroppedAfter(pieces, -1))
            && (PathName(p) != "" ==>
                  exists j :: 0 <= j < |pieces| && pieces[j] == PathName(p) && OnlyDroppedAfter(pieces, j))
  {
    LastPiece(Split(p, '/'), PathName(p));
  }

  lemma LastPiece(pieces: seq<string>, name: string)
    requires var cs := Components(pieces); name == if cs == [] then "" else cs[|cs| - 1]
    ensures name == "" <==> OnlyDroppedAfter(pieces, -1)
    ensures name != "" ==> exists j :: 0 <= j < |pieces| && pieces[j] == name && OnlyDroppedAfter(pieces, j)
  {
    NoComponents(pieces);
    if Components(pieces) != [] {
      var j := LastComponent(pieces);
    }
  }

  /** Joining a relative part appends its components to those of the
      base: the one separator `join` may add never creates or loses a
      component. */
  lemma JoinComponents(base: string, part: string)
    requires |part| == 0 || part[0] != '/'
    ensures Components(Split(JoinPath(base, part), '/'))
            == Components(Split(base, '/')) + Components(Split(part, '/'))
  {
    var r := JoinPath(base, part);
    if base == [] {
      EmptyHasNoComponents();
      assert r == part;
    } else if base[|base| - 1] == '/' {
      var front := base[..|base| - 1];
      assert base == front + ['/'];
      assert r == front + ['/'] + part;
      SlashComponents(r, front, part);
      TrailingSlashComponents(front);
    } else {
      assert r == base + "/" + part;
      SlashComponents(r, base, part);
    }
  }

  /** A trailing `/` adds no component. */
  lemma TrailingSlashComponents(front: string)
    ensures Components(Split(front + ['/'], '/')) == Components(Split(front, '/'))
  {
    SplitAround(front, [], '/');
    assert front + ['/'] + [] == front + ['/'];
    assert Split([], '/') == [[]];
    ComponentsAppend(Split(front, '/'), [[]]);
    ComponentsOne([]);
  }

  lemma EmptyHasNoComponents()
    ensures Components(Split("", '/')) == []
  {
    assert Split("", '/') == [""];
    ComponentsOne("");
  }

  /** A separator between two texts separates their components. */
  lemma SlashComponents(r: string, a: string, b: string)
    requires r == a + ['/'] + b
    ensures Components(Split(r, '/')) == Components(Split(a, '/')) + Components(Split(b, '/'))
  {
    SplitAround(a, b, '/');
    ComponentsAppend(Split(a, '/'), Split(b, '/'));
  }

  /** A plain name is its own one component. */
  lemma PlainNameComponents(name: string)
    requires name != "" && name != "." && '/' !in name
    ensures Components(Split(name, '/')) == [name]
  {
    assert Split(name, '/') == [name] by {
      SplitJoin([name], '/');
    }
    ComponentsOne(name);
  }
}
