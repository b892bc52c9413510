/** The keys of a std::map, in the order in which it iterates over them. */
module OrderedKeys {
  import opened Bits

  lemma {:induction false} LeastOf(s: set<u32>) returns (m: u32)
    requires s != {}
    ensures m in s && forall x :: x in s ==> m <= x
  {
    var x :| x in s;
    var rest := s - {x};
    m := x;
    if rest == {} {
      assert s == {x};
    } else {
      var least := LeastOf(rest);
      assert s == rest + {x};
      if least < x {
        m := least;
      }
    }
  }

  lemma LeastExists(s: set<u32>)
    requires s != {}
    ensures exists m :: m in s && forall x :: x in s ==> m <= x
  {
    var m := LeastOf(s);
  }

  ghost function Least(s: set<u32>): (m: u32)
    requires s != {}
    ensures m in s && forall x :: x in s ==> m <= x
  {
    LeastExists(s);
    var m :| m in s && forall x :: x in s ==> m <= x;
    m
  }

  /** The order in which a std::map iterates over its keys. */
  ghost function Keys(s: set<u32>): (r: seq<u32>)
    ensures forall w :: w in r <==> w in s
  {
    if s == {} then [] else [Least(s)] + Keys(s - {Least(s)})
  }

  lemma {:induction false} KeysIncrease(s: set<u32>)
    ensures forall i, k :: 0 <= i < k < |Keys(s)| ==> Keys(s)[i] < Keys(s)[k]
  {
    if s != {} {
      var m := Least(s);
      var rest := Keys(s - {m});
      KeysIncrease(s - {m});
      forall i, k | 0 <= i < k < |Keys(s)|
        ensures Keys(s)[i] < Keys(s)[k]
      {
        assert Keys(s)[k] == rest[k - 1] && rest[k - 1] in s - {m};
      }
    }
  }

  /** The first key. */
  method First(s: set<u32>) returns (m: u32)
    requires s != {}
    ensures m == Least(s)
  {
    LeastExists(s);
    m :| m in s && forall x :: x in s ==> m <= x;
  }
}
