/** The requirements loop of the package's `setup.py`: each line of the
    requirements file goes to `install_requires` (`required`), except lines
    pointing at a git repository, which contribute the package name after
    `#egg=` to `required` and the whole line to `dependency_links`, or nothing
    when they have no `#egg=`. Reading the file and calling `setuptools.setup`
    are not part of this model. */
module SetupRequirements {
  import opened Common

  const EGG_MARK: string := "#egg="

  /** The line points at a git repository. */
  predicate IsGitLine(line: string)
  {
    StartsWith(line, "-e git:") || StartsWith(line, "-e git+") || StartsWith(line, "git:") || StartsWith(line, "git+")
  }

  /** `line[line.find(EGG_MARK) + len(EGG_MARK):]` */
  function EggName(line: string): (name: string)
    requires Contains(line, EGG_MARK)
    ensures exists p :: OccursAt(line, EGG_MARK, p) && line == line[..p] + EGG_MARK + name
                        && forall q :: 0 <= q < p ==> !OccursAt(line, EGG_MARK, q)
  {
    var p := Find(line, EGG_MARK);
    assert line == line[..p] + line[p..p + |EGG_MARK|] + line[p + |EGG_MARK|..];
    line[p + |EGG_MARK|..]
  }

  /** A git line with an egg name: it gives a package name and a link. */
  predicate IsEggLink(line: string)
  {
    IsGitLine(line) && Contains(line, EGG_MARK)
  }

  /** What one line adds to `required`. */
  function RequiredOf(line: string): seq<string>
  {
    if !IsGitLine(line) then [line]
    else if Contains(line, EGG_MARK) then [EggName(line)]
    else []
  }

  /** `required` after the loop over `lines`: each line adds at most one
      requirement. */
  function Required(lines: seq<string>): (required: seq<string>)
    ensures |required| <= |lines|
  {
    if lines == [] then []
    else Required(lines[..|lines| - 1]) + RequiredOf(lines[|lines| - 1])
  }

  /** `dependency_links` after the loop over `lines`: git lines of the input
      that carry an egg name. */
  function Links(lines: seq<string>): (links: seq<string>)
    ensures forall l :: l in links ==> l in lines && IsGitLine(l) && Contains(l, EGG_MARK)
  {
    FilterMembership(lines, IsEggLink);
    Filter(lines, IsEggLink)
  }

  /** The loop over the requirements lines. */
  method ParseRequirements(requirements: seq<string>) returns (required: seq<string>, dependencyLinks: seq<string>)
    ensures required == Required(requirements)
    ensures dependencyLinks == Links(requirements)
  {
    required, dependencyLinks := [], [];
    var i := 0;
    while i < |requirements|
      invariant 0 <= i <= |requirements|
      invariant required == Required(requirements[..i])
      invariant dependencyLinks == Links(requirements[..i])
    {
      var line := requirements[i];
      assert requirements[..i + 1][..i] == requirements[..i];
      FilterSnoc(requirements, i, IsEggLink);
      if StartsWith(line, "-e git:") || StartsWith(line, "-e git+") || StartsWith(line, "git:") || StartsWith(line, "git+") {
        if Contains(line, EGG_MARK) {
          var packageName := line[Find(line, EGG_MARK) + |EGG_MARK|..];
          required := required + [packageName];
          dependencyLinks := dependencyLinks + [line];
        }
      } else {
        required := required + [line];
      }
      i := i + 1;
    }
    assert requirements[..i] == requirements;
  }

  // ---------------------------------------------------------------------------
  // Properties
  // ---------------------------------------------------------------------------

  /** The lists of a concatenation are the concatenations of the lists: each
      line contributes independently and in input order. */
  lemma {:induction false} RequiredConcat(a: seq<string>, b: seq<string>)
    ensures Required(a + b) == Required(a) + Required(b)
  {
    if b != [] {
      var b' := b[..|b| - 1];
      assert (a + b)[..|a + b| - 1] == a + b';
      RequiredConcat(a, b');
    } else {
      assert a + b == a;
    }
  }

  lemma {:induction false} LinksConcat(a: seq<string>, b: seq<string>)
    ensures Links(a + b) == Links(a) + Links(b)
  {
    if b != [] {
      var b' := b[..|b| - 1];
      assert (a + b)[..|a + b| - 1] == a + b';
      LinksConcat(a, b');
    } else {
      assert a + b == a;
    }
  }

  /** A link is a git line with an egg name, and every such line is a link;
      links keep their input order. */
  lemma LinksSpec(lines: seq<string>)
    ensures forall l :: l in Links(lines) <==> l in lines && IsGitLine(l) && Contains(l, EGG_MARK)
    ensures Subsequence(Links(lines), lines)
  {
    FilterMembership(lines, IsEggLink);
    FilterSubsequence(lines, IsEggLink);
  }

  /** Plain lines reach `required` verbatim; a git line without `#egg=` reaches
      neither list. */
  lemma {:induction false} RequiredPlainLines(lines: seq<string>)
    ensures forall l :: l in lines && !IsGitLine(l) ==> l in Required(lines)
    ensures forall l :: l in lines && IsGitLine(l) && !Contains(l, EGG_MARK) ==> l !in Links(lines)
  {
    LinksSpec(lines);
    if lines != [] {
      var init := lines[..|lines| - 1];
      RequiredPlainLines(init);
      assert lines == init + [lines[|lines| - 1]];
    }
  }

  /** Every requirement is a plain line of the input or the egg name of a git
      line of the input. */
  lemma {:induction false} RequiredOrigins(lines: seq<string>)
    ensures forall r :: r in Required(lines) ==>
              (r in lines && !IsGitLine(r)) || exists l :: l in lines && IsEggLink(l) && r == EggName(l)
  {
    if lines != [] {
      var init := lines[..|lines| - 1];
      RequiredOrigins(init);
      var last := lines[|lines| - 1];
      assert lines == init + [last];
      forall r | r in Required(lines)
        ensures (r in lines && !IsGitLine(r)) || exists l :: l in lines && IsEggLink(l) && r == EggName(l)
      {
        if r in Required(init) {
          if !(r in init && !IsGitLine(r)) {
            var l :| l in init && IsEggLink(l) && r == EggName(l);
            assert l in lines;
          }
        }
      }
    }
  }

  /** Every link adds one package name and every plain line one requirement, so
      there are never more links than requirements nor more requirements than
      lines. */
  lemma {:induction false} RequirementsBounds(lines: seq<string>)
    ensures |Links(lines)| <= |Required(lines)| <= |lines|
  {
    if lines != [] {
      var init := lines[..|lines| - 1];
      RequirementsBounds(init);
      var last := lines[|lines| - 1];
      assert Links(lines) == Links(init) + (if IsEggLink(last) then [last] else []);
    }
  }
}
