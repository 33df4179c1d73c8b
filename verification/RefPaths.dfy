/** Refs as paths: what it means that two of them cannot be stored side by side. */
module RefPaths {
  import opened BoundaryPrefix

  /** The components between the slashes, the first one so far being `component`. */
  function ComponentsFrom(s: string, component: string): (path: seq<string>)
    ensures path != []
    decreases |s|
  {
    if s == [] then [component]
    else if s[0] == '/' then [component] + ComponentsFrom(s[1..], [])
    else ComponentsFrom(s[1..], component + [s[0]])
  }

  function Components(s: string): (path: seq<string>)
    ensures path != []
  {
    ComponentsFrom(s, [])
  }

  function Joined(path: seq<string>): string
    requires path != []
  {
    if |path| == 1 then path[0] else path[0] + "/" + Joined(path[1..])
  }

  lemma {:induction false} JoinComponents(s: string, component: string)
    ensures Joined(ComponentsFrom(s, component)) == component + s
    decreases |s|
  {
    if s != [] {
      if s[0] == '/' {
        JoinComponents(s[1..], []);
        assert s == "/" + s[1..];
        assert ([component] + ComponentsFrom(s[1..], []))[1..] == ComponentsFrom(s[1..], []);
        assert component + "/" + s[1..] == component + ("/" + s[1..]);
      } else {
        JoinComponents(s[1..], component + [s[0]]);
        assert component + [s[0]] + s[1..] == component + s;
      }
    }
  }

  lemma {:induction false} JoinTwo(a: seq<string>, b: seq<string>)
    requires a != [] && b != []
    ensures Joined(a + b) == Joined(a) + "/" + Joined(b)
  {
    if |a| == 1 {
      assert (a + b)[1..] == b;
    } else {
      JoinTwo(a[1..], b);
      assert (a + b)[1..] == a[1..] + b;
      assert a[0] + "/" + (Joined(a[1..]) + "/" + Joined(b)) == a[0] + "/" + Joined(a[1..]) + "/" + Joined(b);
    }
  }

  lemma {:induction false} SplitAtSlash(p: string, rest: string, component: string)
    ensures ComponentsFrom(p + ("/" + rest), component) == ComponentsFrom(p, component) + Components(rest)
    decreases |p|
  {
    var s := p + ("/" + rest);
    if p == [] {
      assert s == "/" + rest && s[1..] == rest;
    } else {
      assert s[1..] == p[1..] + ("/" + rest);
      if p[0] == '/' {
        SplitAtSlash(p[1..], rest, []);
        assert [component] + (ComponentsFrom(p[1..], []) + Components(rest))
            == [component] + ComponentsFrom(p[1..], []) + Components(rest);
      } else {
        SplitAtSlash(p[1..], rest, component + [p[0]]);
      }
    }
  }

  /** A ref lies under another exactly when its path goes on from the other's. */
  lemma UnderIff(s: string, p: string)
    ensures HasPrefix(s, p + "/") <==> Components(p) < Components(s)
  {
    if HasPrefix(s, p + "/") {
      var rest := s[|p| + 1..];
      assert s == (p + "/") + rest;
      assert (p + "/") + rest == p + ("/" + rest);
      SplitAtSlash(p, rest, []);
      assert Components(s) == Components(p) + Components(rest);
    }
    if Components(p) < Components(s) {
      var more := Components(s)[|Components(p)|..];
      JoinTwo(Components(p), more);
      assert Components(s) == Components(p) + more;
      JoinComponents(s, []);
      JoinComponents(p, []);
      assert [] + s == s && [] + p == p;
      assert s == p + "/" + Joined(more);
    }
  }

  /** Two refs collide exactly when the path of one begins with the path of the
      other, so that a directory would have to be a file. */
  lemma CollidesIff(a: string, b: string)
    ensures Collides(a, b) <==> Components(a) <= Components(b) || Components(b) <= Components(a)
  {
    UnderIff(a, b);
    UnderIff(b, a);
    if Components(a) == Components(b) {
      JoinComponents(a, []);
      JoinComponents(b, []);
      assert [] + a == a && [] + b == b;
    }
  }

  /** A candidate, and the path of a boundary ref in it. */
  lemma PrefixIs(k: nat, index: nat)
    ensures Candidate(k) == "refs/display-prerequisite-" + Padded(k)
    ensures Components(BoundaryRef(Candidate(k), index)) == Components(Candidate(k)) + Components(Padded(index))
  {
    SplitAtSlash(Candidate(k), Padded(index), []);
    assert BoundaryRef(Candidate(k), index) == Candidate(k) + ("/" + Padded(index));
  }
}
