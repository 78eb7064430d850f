/** The label and style helpers of the community-challenge cards
    (client/src/components/CommunityChallenges.tsx). */
module ChallengeLabels {
  import opened Wrappers
  import opened Decimal

  const Gradients: seq<string> := [
    "from-violet-400 to-pink-400",
    "from-blue-400 to-violet-400",
    "from-pink-400 to-orange-400",
    "from-green-400 to-blue-400"
  ]

  /** JavaScript's `%`: the remainder takes the sign of the dividend. */
  function JsRemainder(a: int, b: int): (r: int)
    requires b > 0
    ensures -b < r < b
    ensures a >= 0 ==> r == a % b
    ensures a < 0 ==> r <= 0 && (a - r) % b == 0
  {
    if a >= 0 then a % b
    else
      var q := (-a) / b;
      var r := -((-a) % b);
      assert a - r == b * -q;
      MultipleHasNoRemainder(b, -q);
      r
  }

  lemma MultipleHasNoRemainder(b: int, k: int)
    requires b > 0
    ensures (b * k) % b == 0
  {
    var d, m := (b * k) / b, (b * k) % b;
    assert b * k == b * d + m && 0 <= m < b;
    assert b * (k - d) == m;
    SmallMultipleIsZero(b, k - d);
  }

  lemma SmallMultipleIsZero(b: int, j: int)
    requires b > 0 && 0 <= b * j < b
    ensures j == 0
  {
  }

  /** getChallengeColors: `options[id % 4]`. A negative id yields a negative
      index and so `undefined`, except for multiples of 4, where `-0` indexes
      the first entry. */
  function ChallengeColors(id: int): (r: Option<string>)
    ensures r.Some? <==> id >= 0 || id % 4 == 0
    ensures r.Some? ==> r.value in Gradients
    ensures id >= 0 ==> r == Some(Gradients[id % 4])
  {
    var i := JsRemainder(id, |Gradients|);
    if i >= 0 then Some(Gradients[i]) else None
  }

  /** For non-negative ids the gradient depends only on id mod 4, and the
      four residues get four different gradients. */
  lemma {:induction false} ChallengeColorsByResidue(a: int, b: int)
    requires a >= 0 && b >= 0
    ensures ChallengeColors(a) == ChallengeColors(b) <==> a % 4 == b % 4
  {
    var i, j := a % 4, b % 4;
    assert ChallengeColors(a) == Some(Gradients[i]);
    assert ChallengeColors(b) == Some(Gradients[j]);
    if i != j {
      GradientsDistinct(i, j);
    }
  }

  lemma GradientsDistinct(i: nat, j: nat)
    requires i < 4 && j < 4 && i != j
    ensures Gradients[i] != Gradients[j]
  {
    assert Gradients[0][5] == 'v' && Gradients[1][5] == 'b' && Gradients[2][5] == 'p' && Gradients[3][5] == 'g';
  }

  const Tomorrow := "Tomorrow"

  /** getTimeLabel: case-sensitive on the status text. */
  function TimeLabel(status: string, daysLeft: int): (r: string)
    ensures r == Tomorrow <==> status == "Coming Soon"
  {
    var n := IntToString(daysLeft);
    assert (n + " days ago")[|n| + 8] == 'o' != Tomorrow[|Tomorrow| - 1];
    assert (n + " days left")[|n| + 9] == 't' != Tomorrow[|Tomorrow| - 1];
    if status == "Completed" then n + " days ago"
    else if status == "Coming Soon" then Tomorrow
    else n + " days left"
  }

  /** Reads back a `<n> days ago` or `<n> days left` label: the number and
      whether it was the "ago" form. */
  function ParseDaysLabel(s: string): Option<(int, bool)>
  {
    if |s| >= 10 && s[|s| - 9..] == " days ago" then
      match ParseInt(s[..|s| - 9])
      case Some(n) => Some((n, true))
      case None => None
    else if |s| >= 11 && s[|s| - 10..] == " days left" then
      match ParseInt(s[..|s| - 10])
      case Some(n) => Some((n, false))
      case None => None
    else None
  }

  /** Every status but "Coming Soon" shows daysLeft, as "ago" exactly for
      "Completed". */
  lemma {:induction false} TimeLabelCases(status: string, daysLeft: int)
    ensures status != "Coming Soon" ==>
      ParseDaysLabel(TimeLabel(status, daysLeft)) == Some((daysLeft, status == "Completed"))
  {
    var n := IntToString(daysLeft);
    IntToStringRoundTrip(daysLeft);
    if status == "Completed" {
      var s := n + " days ago";
      assert s[|s| - 9..] == " days ago" && s[..|s| - 9] == n;
    } else if status != "Coming Soon" {
      var s := n + " days left";
      assert s[|s| - 9..] != " days ago" by {
        assert s[|s| - 1] == 't' != 'o';
      }
      assert s[|s| - 10..] == " days left" && s[..|s| - 10] == n;
    }
  }

  const ActiveStyle := "bg-success/20 text-success"
  const MutedStyle := "bg-neutral-medium/20 text-neutral-medium"
  const CompletedStyle := "bg-neutral-dark/20 text-neutral-dark"

  /** getStatusStyles: three named statuses; the default shares the "Coming Soon" class. */
  function StatusStyles(status: string): (r: string)
    ensures r == ActiveStyle <==> status == "Active"
    ensures r == CompletedStyle <==> status == "Completed"
    ensures r == MutedStyle <==> status != "Active" && status != "Completed"
  {
    assert ActiveStyle[3] != MutedStyle[3] && ActiveStyle[3] != CompletedStyle[3];
    assert MutedStyle[11] != CompletedStyle[11];
    match status
    case "Active" => ActiveStyle
    case "Coming Soon" => MutedStyle
    case "Completed" => CompletedStyle
    case _ => MutedStyle
  }

  /** The store writes "active" and "completed" in lower case; both fall
      through to the default branch of each helper. */
  lemma StoreSpellingsFallThrough(daysLeft: int)
    ensures TimeLabel("completed", daysLeft) == TimeLabel("active", daysLeft)
                                             == IntToString(daysLeft) + " days left"
    ensures StatusStyles("completed") == StatusStyles("active") == StatusStyles("Coming Soon")
  {
    assert "completed" != "Completed" && "active" != "Active";
  }
}
