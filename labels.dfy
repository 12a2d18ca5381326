/**
 * `get_label_description` and the OK/SPAM status rule of `save_results`.
 * Both are total over the integers: the three known levels have fixed
 * texts, every other value is reported as unknown and counts as spam.
 */
module Labels {
  import opened Wrappers
  import opened PyText

  const UnknownPrefix := "Unknown Level: "

  /** `get_label_description(label_value)`. */
  function LabelDescription(labelValue: int): (desc: string)
    ensures |desc| > |UnknownPrefix|
    ensures labelValue == 0 ==> desc == "Level 0: Worst Label"
    ensures labelValue == 1 ==> desc == "Level 1: Limbo Label"
    ensures labelValue == 2 ==> desc == "Level 2: Best Label"
    ensures labelValue !in {0, 1, 2} ==>
              desc[..|UnknownPrefix|] == UnknownPrefix &&
              var digits := desc[|UnknownPrefix|..];
              IsDecimalText(digits) && DecimalToInt(digits) == labelValue &&
              (digits[0] == '-' <==> labelValue < 0) &&
              var magnitude := if labelValue < 0 then digits[1..] else digits;
              AllDigits(magnitude) && (magnitude[0] != '0' || magnitude == "0")
  {
    if labelValue == 0 then "Level 0: Worst Label"
    else if labelValue == 1 then "Level 1: Limbo Label"
    else if labelValue == 2 then "Level 2: Best Label"
    else
      var desc := UnknownPrefix + IntToDecimal(labelValue);
      assert desc[..|UnknownPrefix|] == UnknownPrefix && desc[|UnknownPrefix|..] == IntToDecimal(labelValue);
      desc
  }

  /** `"OK" if label_value == 2 else "SPAM"`: only the best level is clean; unknown levels are spam. */
  function Status(labelValue: int): (status: string)
    ensures status == "OK" <==> labelValue == 2
    ensures status == "SPAM" <==> labelValue != 2
  {
    if labelValue == 2 then "OK" else "SPAM"
  }

  /** Reads a description back to the level it describes. */
  function DescribedLevel(desc: string): Option<int>
  {
    if desc == "Level 0: Worst Label" then Some(0)
    else if desc == "Level 1: Limbo Label" then Some(1)
    else if desc == "Level 2: Best Label" then Some(2)
    else if |desc| > |UnknownPrefix| && desc[..|UnknownPrefix|] == UnknownPrefix && IsDecimalText(desc[|UnknownPrefix|..]) then
      Some(DecimalToInt(desc[|UnknownPrefix|..]))
    else None
  }

  /** The description of every level, known or not, names that level and no other. */
  lemma DescriptionRoundTrip(labelValue: int)
    ensures DescribedLevel(LabelDescription(labelValue)) == Some(labelValue)
  {
    var desc := LabelDescription(labelValue);
    if labelValue !in {0, 1, 2} {
      var digits := IntToDecimal(labelValue);
      assert desc[..|UnknownPrefix|] == UnknownPrefix && desc[|UnknownPrefix|..] == digits;
      assert desc[0] == 'U';
    }
  }

  /** Two levels with the same description are the same level. */
  lemma DescriptionInjective(a: int, b: int)
    requires LabelDescription(a) == LabelDescription(b)
    ensures a == b
  {
    DescriptionRoundTrip(a);
    DescriptionRoundTrip(b);
  }

  /** A description says "Unknown Level: " exactly when the level is not 0, 1 or 2. */
  lemma UnknownDescriptionIff(labelValue: int)
    ensures var desc := LabelDescription(labelValue);
            (|desc| >= |UnknownPrefix| && desc[..|UnknownPrefix|] == UnknownPrefix) <==> labelValue !in {0, 1, 2}
  {
    var desc := LabelDescription(labelValue);
    if labelValue in {0, 1, 2} {
      assert desc[0] == 'L' && UnknownPrefix[0] == 'U';
      if |desc| >= |UnknownPrefix| {
        assert desc[..|UnknownPrefix|][0] == 'L';
      }
    } else {
      assert desc[..|UnknownPrefix|] == UnknownPrefix;
    }
  }

  /** The status is OK exactly when the description is the best level's. */
  lemma StatusAgreesWithDescription(labelValue: int)
    ensures Status(labelValue) == "OK" <==> LabelDescription(labelValue) == "Level 2: Best Label"
  {
    if LabelDescription(labelValue) == "Level 2: Best Label" {
      DescriptionInjective(labelValue, 2);
    }
  }
}
