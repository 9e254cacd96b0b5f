/** The skill-weight table that feeds the pie chart: every entry of the
    resume's "skills" list becomes a key, and each key gets the same share
    100 / n, where n is the length of the list, repeated entries included. */
module SkillWeights {

  /** The share each key receives, as an exact rational. */
  function Share(n: nat): real
    requires n > 0
  {
    100.0 / (n as real)
  }

  /** The set of entries of a list. */
  function Entries(skills: seq<string>): set<string>
  {
    set s | s in skills
  }

  predicate NoRepeats(skills: seq<string>)
  {
    forall i, j :: 0 <= i < j < |skills| ==> skills[i] != skills[j]
  }

  /** The loop that fills `skills_dict`: the keys are exactly the entries
      of the list, and every key holds the same share. */
  method BuildSkillWeights(skills: seq<string>) returns (weights: map<string, real>)
    ensures weights.Keys == Entries(skills)
    ensures forall s :: s in weights ==> |skills| > 0 && weights[s] == Share(|skills|)
  {
    weights := map[];
    for i := 0 to |skills|
      invariant weights.Keys == Entries(skills[..i])
      invariant forall s :: s in weights ==> |skills| > 0 && weights[s] == Share(|skills|)
    {
      assert skills[..i + 1] == skills[..i] + [skills[i]];
      weights := weights[skills[i] := Share(|skills|)];
    }
    assert skills[..|skills|] == skills;
  }

  /** Repeated entries collapse: the table has one key per entry exactly
      when the list has no repeats, and never more keys than entries. */
  lemma {:induction false} KeyCount(skills: seq<string>)
    ensures |Entries(skills)| <= |skills|
    ensures |Entries(skills)| == |skills| <==> NoRepeats(skills)
  {
    if skills != [] {
      var rest := skills[1..];
      KeyCount(rest);
      assert Entries(skills) == {skills[0]} + Entries(rest) by {
        assert skills == [skills[0]] + rest;
      }
      if skills[0] in rest {
        var j :| 0 <= j < |rest| && rest[j] == skills[0];
        assert skills[0] == skills[j + 1];
      } else {
        assert NoRepeats(skills) <==> NoRepeats(rest) by {
          if NoRepeats(rest) {
            forall i, j | 0 <= i < j < |skills| ensures skills[i] != skills[j] {
              if i > 0 { assert skills[i] == rest[i - 1] && skills[j] == rest[j - 1]; }
            }
          }
          if NoRepeats(skills) {
            forall i, j | 0 <= i < j < |rest| ensures rest[i] != rest[j] {
              assert rest[i] == skills[i + 1] && rest[j] == skills[j + 1];
            }
          }
        }
      }
    }
  }

  /** The weights add up to 100 exactly when no skill is listed twice:
      with repeats the table holds fewer keys than the list has entries. */
  lemma TotalIsHundredIffNoRepeats(skills: seq<string>)
    requires skills != []
    ensures (|Entries(skills)| as real) * Share(|skills|) == 100.0 <==> NoRepeats(skills)
  {
    KeyCount(skills);
    var n := |skills| as real;
    var k := |Entries(skills)| as real;
    assert k * (100.0 / n) == 100.0 * k / n;
    assert 100.0 * k / n == 100.0 <==> k == n;
  }
}
