/**
 * The roster predicate the balancing run ranks guilds by: a roster is
 * complete when its class labels include a cleric, a warrior, and a mage or
 * an archer. Labels are matched exactly, in the Portuguese title-case
 * spelling this predicate uses.
 */
module RequiredClass {
  import opened Entities

  const Cleric: string := "Cl\U{E9}rigo"
  const Warrior: string := "Guerreiro"
  const Mage: string := "Mago"
  const Archer: string := "Arqueiro"

  /** The roster's class labels, in roster order (duplicates kept). */
  function Classes(ms: seq<Member>): (cs: seq<string>)
    ensures |cs| == |ms|
    ensures forall i :: 0 <= i < |ms| ==> cs[i] == ms[i].cls
  {
    seq(|ms|, i requires 0 <= i < |ms| => ms[i].cls)
  }

  /** True when the roster covers the three required roles; such a roster has at least three members. */
  predicate HasRequiredClasses(ms: seq<Member>)
    ensures HasRequiredClasses(ms) ==> |ms| >= 3
  {
    var classes := Classes(ms);
    Cleric in classes && Warrior in classes && (Mage in classes || Archer in classes)
  }

  /** The distinct class labels of a roster. */
  function ClassSet(ms: seq<Member>): set<string> {
    set m | m in ms :: m.cls
  }

  /** Whether a roster holds a member of the given class. */
  predicate HasClass(ms: seq<Member>, cls: string) {
    exists i :: 0 <= i < |ms| && ms[i].cls == cls
  }

  lemma ClassInSet(ms: seq<Member>, cls: string)
    ensures cls in Classes(ms) <==> cls in ClassSet(ms)
    ensures cls in Classes(ms) <==> HasClass(ms, cls)
  {
    if cls in Classes(ms) {
      var i :| 0 <= i < |ms| && Classes(ms)[i] == cls;
      assert ms[i] in ms;
    }
    if cls in ClassSet(ms) {
      var m :| m in ms && m.cls == cls;
      var i :| 0 <= i < |ms| && ms[i] == m;
      assert Classes(ms)[i] == cls;
    }
  }

  /** The predicate, stated on the set of labels present. */
  lemma RequiredClassesBySet(ms: seq<Member>)
    ensures HasRequiredClasses(ms) <==>
              && Cleric in ClassSet(ms)
              && Warrior in ClassSet(ms)
              && (Mage in ClassSet(ms) || Archer in ClassSet(ms))
  {
    ClassInSet(ms, Cleric);
    ClassInSet(ms, Warrior);
    ClassInSet(ms, Mage);
    ClassInSet(ms, Archer);
  }

  /** Only the set of labels matters: order, duplicates and experience do not. */
  lemma DependsOnlyOnClassSet(a: seq<Member>, b: seq<Member>)
    requires ClassSet(a) == ClassSet(b)
    ensures HasRequiredClasses(a) == HasRequiredClasses(b)
  {
    RequiredClassesBySet(a);
    RequiredClassesBySet(b);
  }

  /** An empty roster never covers the roles. */
  lemma EmptyRosterIncomplete()
    ensures !HasRequiredClasses([])
  {
  }

  /** Appending a member never turns a complete roster incomplete. */
  lemma AppendKeepsComplete(ms: seq<Member>, m: Member)
    requires HasRequiredClasses(ms)
    ensures HasRequiredClasses(ms + [m])
  {
    RequiredClassesBySet(ms);
    RequiredClassesBySet(ms + [m]);
    assert ClassSet(ms + [m]) == ClassSet(ms) + {m.cls};
  }

  /** Exact matching: upper-case or padded spellings do not count as a warrior. */
  lemma MatchingIsExact(e: int)
    ensures !HasRequiredClasses([Member("a", "GUERREIRO", e), Member("b", Cleric, e), Member("c", Mage, e)])
    ensures !HasRequiredClasses([Member("a", "Guerreiro ", e), Member("b", Cleric, e), Member("c", Mage, e)])
    ensures HasRequiredClasses([Member("a", Warrior, e), Member("b", Cleric, e), Member("c", Mage, e)])
  {
    var ms := [Member("a", Warrior, e), Member("b", Cleric, e), Member("c", Mage, e)];
    assert Classes(ms)[0] == Warrior && Classes(ms)[1] == Cleric && Classes(ms)[2] == Mage;
  }

  /** A mage and an archer fill the third role interchangeably. */
  lemma MageArcherInterchangeable(ms: seq<Member>, k: int)
    requires 0 <= k < |ms| && ms[k].cls == Mage
    ensures HasRequiredClasses(ms) == HasRequiredClasses(ms[k := ms[k].(cls := Archer)])
  {
    var ms' := ms[k := ms[k].(cls := Archer)];
    RequiredClassesBySet(ms);
    RequiredClassesBySet(ms');
    assert ms[k] in ms && ms'[k] in ms';
    forall c | c != Mage && c != Archer
      ensures c in ClassSet(ms) <==> c in ClassSet(ms')
    {
      if c in ClassSet(ms) {
        var m :| m in ms && m.cls == c;
        var i :| 0 <= i < |ms| && ms[i] == m;
        assert i != k && ms'[i] == m;
      }
      if c in ClassSet(ms') {
        var m :| m in ms' && m.cls == c;
        var i :| 0 <= i < |ms'| && ms'[i] == m;
        assert i != k && ms[i] == m;
      }
    }
  }
}
