/** The chat content gate `should_tat` (server2.py): a line is worth
    tattooing when it is two four-character words separated by one space and
    contains no lowercase letter. */
module Gate {
  import opened Strings

  /** Lowercase letters, taken as ASCII 'a'..'z'. */
  predicate IsLower(c: char) {
    'a' <= c <= 'z'
  }

  /** The `for letter in ...: if letter.islower(): return False` scan. */
  function NoLower(s: string): (b: bool)
    ensures b <==> forall i :: 0 <= i < |s| ==> !IsLower(s[i])
    decreases |s|
  {
    if |s| == 0 then true
    else if IsLower(s[0]) then false
    else NoLower(s[1..])
  }


  /** The shape the gate accepts, stated on the characters of the line:
      nine characters, a space at index 4 and nowhere else, no lowercase letter. */
  predicate Shouty44(msg: string) {
    && |msg| == 9
    && msg[4] == ' '
    && forall i :: 0 <= i < |msg| && i != 4 ==> msg[i] != ' ' && !IsLower(msg[i])
  }

  /** Splitting on single spaces gives exactly two four-character words
      exactly when the line is nine characters with its only space at index 4. */
  lemma TwoFourLetterWords(msg: string)
    ensures (var w := Split(msg, ' '); |w| == 2 && |w[0]| == 4 && |w[1]| == 4)
        <==> (|msg| == 9 && msg[4] == ' ' && forall i :: 0 <= i < |msg| && i != 4 ==> msg[i] != ' ')
  {
    var w := Split(msg, ' ');
    if |w| == 2 && |w[0]| == 4 && |w[1]| == 4 {
      assert Join(w[1..], ' ') == w[1];
      assert msg == w[0] + [' '] + w[1];
      forall i | 0 <= i < |msg| && i != 4
        ensures msg[i] != ' '
      {
        if i < 4 {
          assert msg[i] == w[0][i];
        } else {
          assert msg[i] == w[1][i - 5];
        }
      }
    }
    if |msg| == 9 && msg[4] == ' ' && forall i :: 0 <= i < |msg| && i != 4 ==> msg[i] != ' ' {
      var ts := [msg[..4], msg[5..]];
      forall k | 0 <= k < 2
        ensures ' ' !in ts[k]
      {
        forall j | 0 <= j < |ts[k]|
          ensures ts[k][j] != ' '
        {
          if k == 0 {
            assert ts[k][j] == msg[j];
          } else {
            assert ts[k][j] == msg[j + 5];
          }
        }
      }
      assert Join(ts[1..], ' ') == msg[5..];
      assert Join(ts, ' ') == msg;
      SplitJoin(ts, ' ');
    }
  }

  /** When the line splits into two four-character words, the letters of the
      two words are the line's characters other than the space at index 4. */
  lemma WordLettersAreLineLetters(msg: string)
    requires var w := Split(msg, ' '); |w| == 2 && |w[0]| == 4 && |w[1]| == 4
    ensures var w := Split(msg, ' ');
            NoLower(w[0] + w[1]) <==> forall i :: 0 <= i < |msg| && i != 4 ==> !IsLower(msg[i])
  {
    var w := Split(msg, ' ');
    assert Join(w[1..], ' ') == w[1];
    assert msg == w[0] + [' '] + w[1];
    var both := w[0] + w[1];
    forall i | 0 <= i < 8
      ensures both[i] == (if i < 4 then msg[i] else msg[i + 1])
    {
    }
    if NoLower(both) {
      forall i | 0 <= i < |msg| && i != 4
        ensures !IsLower(msg[i])
      {
        if i < 4 {
          assert msg[i] == both[i];
        } else {
          assert msg[i] == both[i - 1];
        }
      }
    }
    if forall i :: 0 <= i < |msg| && i != 4 ==> !IsLower(msg[i]) {
      forall i | 0 <= i < |both|
        ensures !IsLower(both[i])
      {
        if i < 4 {
          assert both[i] == msg[i];
        } else {
          assert both[i] == msg[i + 1];
        }
      }
    }
  }

  /** `should_tat(msg)`, step by step as the source computes it. It accepts a
      line exactly when the line has the shouty 4-4 shape. */
  function ShouldTat(msg: string): (accepted: bool)
    ensures accepted <==> Shouty44(msg)
  {
    var words := Split(msg, ' ');
    TwoFourLetterWords(msg);
    if |words| != 2 then false
    else if |words[0]| != 4 || |words[1]| != 4 then false
    else
      WordLettersAreLineLetters(msg);
      NoLower(words[0] + words[1])
  }

  /** Every accepted line is nine characters long with a space at index 4. */
  lemma AcceptedShape(msg: string)
    requires ShouldTat(msg)
    ensures |msg| == 9 && msg[4] == ' '
  {
  }

  /** Doubled, leading or trailing spaces create empty words and are rejected. */
  lemma EmptyWordRejected(msg: string)
    requires |msg| > 0
    requires || msg[0] == ' '
             || msg[|msg| - 1] == ' '
             || exists i :: 0 <= i < |msg| - 1 && msg[i] == ' ' && msg[i + 1] == ' '
    ensures !ShouldTat(msg)
  {
  }

  /** An upper-case 4-4 code passes the gate. */
  lemma GateAcceptsLetters()
    ensures ShouldTat("ABCD WXYZ")
  {
    var a := "ABCD WXYZ";
    assert Shouty44(a) by {
      assert a[0] == 'A' && a[1] == 'B' && a[2] == 'C' && a[3] == 'D' && a[4] == ' ';
      assert a[5] == 'W' && a[6] == 'X' && a[7] == 'Y' && a[8] == 'Z';
    }
  }

  /** A digits-only 4-4 code passes the gate too. */
  lemma GateAcceptsDigits()
    ensures ShouldTat("1234 5678")
  {
    var d := "1234 5678";
    assert Shouty44(d) by {
      assert d[0] == '1' && d[1] == '2' && d[2] == '3' && d[3] == '4' && d[4] == ' ';
      assert d[5] == '5' && d[6] == '6' && d[7] == '7' && d[8] == '8';
    }
  }

  /** A lowercase letter, a short word, a third word or a leading space fails the gate. */
  lemma GateRejectsExamples()
    ensures !ShouldTat("abcd WXYZ")
    ensures !ShouldTat("AB WXYZ")
    ensures !ShouldTat("ABCD WXYZ EFGH")
    ensures !ShouldTat(" ABCD WXYZ")
  {
    var l := "abcd WXYZ";
    assert IsLower(l[0]);
  }
}
