/** The create-vault page's editable state and its submit handler: the
    member rows, the voting threshold, the error shown to the user and the
    deploying flag. */
module CreateForm {
  import opened Wrappers
  import opened Text
  import opened MemberValidation

  /** The only network the page deploys to: Base Goerli. */
  const BaseGoerliChainId: int := 84531

  /** The swap router every new vault is deployed with. */
  const SwapRouterAddress: string := "0x2626664c2603336E57B271c5C0b26F421741e481"

  /** The bytecode value that means the contracts were never compiled. */
  const EmptyBytecode: string := "0x"

  /** `members.filter((_, i) => i !== index)`: every row whose position is
      not `index`, in order. */
  function WithoutRow(rows: seq<string>, index: int): (r: seq<string>)
    ensures 0 <= index < |rows| ==> r == rows[..index] + rows[index + 1..]
    ensures !(0 <= index < |rows|) ==> r == rows
  {
    if rows == [] then []
    else
      var rest := WithoutRow(rows[1..], index - 1);
      assert rows == [rows[0]] + rows[1..];
      if index == 0 then rest else [rows[0]] + rest
  }

  /** Removing a row undoes inserting it at the same position. */
  lemma WithoutRowUndoesInsert(rows: seq<string>, index: int, row: string)
    requires 0 <= index <= |rows|
    ensures WithoutRow(rows[..index] + [row] + rows[index..], index) == rows
  {
  }

  /** The number of rows with text in them, shown as "N total". */
  function FilledCount(rows: seq<string>): (n: nat)
    ensures n <= |rows|
  {
    |Filled(rows)|
  }

  /** The threshold selector's options: `1 .. max(1, FilledCount(rows))`. */
  function ThresholdOptions(rows: seq<string>): (r: seq<int>)
    ensures |r| >= 1 && r[0] == 1
    ensures forall t :: t in r <==> 1 <= t <= if FilledCount(rows) < 1 then 1 else FilledCount(rows)
    ensures forall i, j :: 0 <= i < j < |r| ==> r[i] < r[j]
  {
    var n := if FilledCount(rows) < 1 then 1 else FilledCount(rows);
    CountingFromOne(n);
    OneTo(n)
  }

  /** `Array.from({ length: n }, (_, i) => i + 1)`. */
  function OneTo(n: nat): (r: seq<int>)
    ensures |r| == n
  {
    seq(n, i requires 0 <= i < n => i + 1)
  }

  lemma CountingFromOne(n: nat)
    ensures forall t :: t in OneTo(n) <==> 1 <= t <= n
  {
    var r := OneTo(n);
    forall t | 1 <= t <= n ensures t in r {
      assert r[t - 1] == t;
    }
  }

  /** Whenever some row is filled, every threshold the selector offers
      passes the threshold check of validation. */
  lemma OfferedThresholdsInRange(rows: seq<string>, t: int)
    requires FilledCount(rows) >= 1 && t in ThresholdOptions(rows)
    ensures 1 <= t <= |Filled(rows)|
  {
  }

  /** What the page knows about its surroundings when the form is
      submitted: whether a wallet is connected, the wallet's chain and the
      compiled vault bytecode. */
  datatype Environment = Environment(isConnected: bool, chainId: int, bytecode: string)

  /** The arguments of the vault constructor the page deploys with. */
  datatype DeployRequest = DeployRequest(members: seq<string>, threshold: int, router: string)

  /** The reasons a submit stops, in the order the handler checks them. */
  datatype SubmitError =
    | NotConnected
    | WrongNetwork
    | BytecodeMissing
    | Invalid(reason: ValidationError)

  /** The text shown for each reason; never empty, so the fallback text
      "Failed to deploy vault" is never what the user sees. */
  function SubmitMessage(e: SubmitError): (m: string)
    ensures |m| > 0
  {
    match e
    case NotConnected => "Please connect your wallet"
    case WrongNetwork => "Please switch to Base Goerli network"
    case BytecodeMissing => "Contract bytecode not available. Run 'npm run prepare-frontend' to compile contracts."
    case Invalid(reason) => ValidationMessage(reason)
  }

  /** What `handleSubmit` decides: the first failing guard among wallet
      connection, network and bytecode, then the validation result; a
      deployment only when all pass. Every deployment it asks for meets
      the vault's construction preconditions: a non-empty list of
      distinct members and a threshold between 1 and their number. */
  function Decide(env: Environment, codec: AddressCodec, rows: seq<string>, threshold: int): (r: Result<DeployRequest, SubmitError>)
    ensures r.Ok? ==> r.value.members != [] && Distinct(r.value.members)
    ensures r.Ok? ==> 1 <= r.value.threshold <= |r.value.members|
    ensures r.Ok? ==> r.value.router == SwapRouterAddress
  {
    if !env.isConnected then Err(NotConnected)
    else if env.chainId != BaseGoerliChainId then Err(WrongNetwork)
    else if env.bytecode == EmptyBytecode then Err(BytecodeMissing)
    else match Validate(codec, rows, threshold)
      case Err(e) => Err(Invalid(e))
      case Ok(members) => Ok(DeployRequest(members, threshold, SwapRouterAddress))
  }

  /** The guards of `handleSubmit` report in a fixed order: no wallet
      first, then the wrong chain, then missing bytecode, and only then
      what validation says; and a deployment happens exactly when
      validation succeeds behind passing guards. */
  lemma SubmitGuardOrder(env: Environment, codec: AddressCodec, rows: seq<string>, threshold: int)
    ensures !env.isConnected ==> Decide(env, codec, rows, threshold) == Err(NotConnected)
    ensures env.isConnected && env.chainId != BaseGoerliChainId ==>
      Decide(env, codec, rows, threshold) == Err(WrongNetwork)
    ensures env.isConnected && env.chainId == BaseGoerliChainId && env.bytecode == EmptyBytecode ==>
      Decide(env, codec, rows, threshold) == Err(BytecodeMissing)
    ensures env.isConnected && env.chainId == BaseGoerliChainId && env.bytecode != EmptyBytecode ==>
      Decide(env, codec, rows, threshold) ==
        match Validate(codec, rows, threshold)
        case Err(e) => Err(Invalid(e))
        case Ok(members) => Ok(DeployRequest(members, threshold, SwapRouterAddress))
  {
  }

  /** A deployment carries the canonical spelling of the filled rows, in
      order, and the threshold as chosen. */
  lemma DeployedMembersAreNormalisedRows(env: Environment, codec: AddressCodec, rows: seq<string>, threshold: int)
    requires Decide(env, codec, rows, threshold).Ok?
    ensures Decide(env, codec, rows, threshold).value ==
      DeployRequest(Normalised(codec, Filled(rows)), threshold, SwapRouterAddress)
  {
  }

  /** The form's state. Rows are edited in place; the threshold is kept
      within the number of rows as rows come and go. */
  class CreateVaultForm {
    var members: seq<string>
    var threshold: int
    var deploymentError: string
    var isDeploying: bool

    /** There is always a row, and the threshold lies between 1 and the
        number of rows. */
    ghost predicate Valid()
      reads this
    {
      |members| >= 1 && 1 <= threshold <= |members|
    }

    /** The form as first shown: one blank row, threshold 1. */
    constructor ()
      ensures members == [""] && threshold == 1
      ensures deploymentError == "" && !isDeploying
      ensures Valid()
    {
      members := [""];
      threshold := 1;
      deploymentError := "";
      isDeploying := false;
    }

    /** `addMember`: append one blank row; lower the threshold to the new
        row count if it was above it. */
    method AddMember()
      modifies this`members, this`threshold
      ensures members == old(members) + [""]
      ensures threshold == if old(threshold) > |old(members)| + 1 then |members| else old(threshold)
      ensures threshold <= |members|
      ensures old(Valid()) ==> Valid()
    {
      var count := |members|;
      members := members + [""];
      if threshold > count + 1 {
        threshold := count + 1;
      }
    }

    /** `removeMember`: with a single row nothing changes; otherwise the row
        at `index` goes, the others keep their order, and the threshold
        drops to the new row count only when it is above it. */
    method RemoveMember(index: int)
      modifies this`members, this`threshold
      ensures |old(members)| <= 1 ==> members == old(members) && threshold == old(threshold)
      ensures |old(members)| > 1 && 0 <= index < |old(members)| ==>
        members == old(members)[..index] + old(members)[index + 1..]
      ensures |old(members)| > 1 && !(0 <= index < |old(members)|) ==> members == old(members)
      ensures |old(members)| > 1 ==>
        threshold == if old(threshold) > |members| then |members| else old(threshold)
      ensures old(Valid()) ==> Valid()
    {
      if |members| > 1 {
        var newMembers := WithoutRow(members, index);
        members := newMembers;
        if threshold > |newMembers| {
          threshold := |newMembers|;
        }
      }
    }

    /** `handleMemberChange`: the row at `index` now holds `value`; the row
        count, every other row and the threshold stay as they were. */
    method ChangeMember(index: int, value: string)
      requires 0 <= index < |members|
      modifies this`members
      ensures |members| == |old(members)| && members[index] == value
      ensures forall i :: 0 <= i < |members| && i != index ==> members[i] == old(members)[i]
      ensures old(Valid()) ==> Valid()
    {
      var newMembers := members;
      newMembers := newMembers[index := value];
      members := newMembers;
    }

    /** Choosing an option of the threshold selector. */
    method SelectThreshold(choice: int)
      requires choice in ThresholdOptions(members)
      modifies this`threshold
      ensures threshold == choice
      ensures old(Valid()) ==> Valid()
    {
      threshold := choice;
    }

    /** `handleSubmit`: clear the error, stop at the first failing guard
        with its message, otherwise mark the form deploying and validate;
        on a validation error show its message and clear the flag, on
        success ask for the deployment `Decide` describes. The deploying
        flag is left alone by the three early guards. */
    method HandleSubmit(env: Environment, codec: AddressCodec) returns (request: Option<DeployRequest>)
      modifies this`deploymentError, this`isDeploying
      ensures var d := Decide(env, codec, members, threshold);
        && (d.Ok? ==> request == Some(d.value) && deploymentError == "" && isDeploying)
        && (d.Err? ==> request == None && deploymentError == SubmitMessage(d.error))
        && (d.Err? && d.error.Invalid? ==> !isDeploying)
        && (d.Err? && !d.error.Invalid? ==> isDeploying == old(isDeploying))
    {
      deploymentError := "";
      if !env.isConnected {
        deploymentError := SubmitMessage(NotConnected);
        return None;
      }
      if env.chainId != BaseGoerliChainId {
        deploymentError := SubmitMessage(WrongNetwork);
        return None;
      }
      if env.bytecode == EmptyBytecode {
        deploymentError := SubmitMessage(BytecodeMissing);
        return None;
      }
      isDeploying := true;
      var validated := Validate(codec, members, threshold);
      if validated.Err? {
        deploymentError := ValidationMessage(validated.error);
        isDeploying := false;
        return None;
      }
      request := Some(DeployRequest(validated.value, threshold, SwapRouterAddress));
    }
  }

  /** The threshold is clamped to the number of rows, not of filled rows,
      so a form in a valid state can hold a threshold the selector no
      longer offers and validation then rejects: two rows, one of them
      blank, threshold 2. */
  lemma StaleThresholdAfterClearingRow()
    ensures var codec := AddressCodec(s => true, s => s);
      var rows := [SwapRouterAddress, ""];
      && |rows| >= 1 && 1 <= 2 <= |rows|
      && 2 !in ThresholdOptions(rows)
      && Validate(codec, rows, 2) == Err(ThresholdOutOfRange(1))
  {
    var codec := AddressCodec(s => true, s => s);
    var rows := [SwapRouterAddress, ""];
    assert SwapRouterAddress[0] == '0';
    assert !IsBlank(SwapRouterAddress);
    TrimEmptyIffBlank(SwapRouterAddress);
    TrimEmptyIffBlank("");
    assert rows[1..] == [""];
    assert [""][1..] == [];
    assert Filled(rows) == [SwapRouterAddress];
    assert NormaliseAll(codec, [SwapRouterAddress]).Ok?;
    var valid := NormaliseAll(codec, [SwapRouterAddress]).value;
    assert |valid| == 1;
    assert Elements(valid) == {valid[0]};
  }
}
