/** The sensor's window as the array that it is, and the loop that runs over it. */
module SensorObject {
  import opened Sensor

  /** `DATA_SEQUENCE`: the samples from `front` to `rear`, newest first. */
  class DataSequence {
    const data: array<Vector>
    const front: int
    var rear: int
    var nowData: Vector

    ghost predicate Valid()
      reads this
    {
      data.Length == WINDOW_SIZE && front == 0 && -1 <= rear < WINDOW_SIZE
    }

    ghost function Window(): seq<Vector>
      reads this, data
      requires Valid()
    {
      data[..rear + 1]
    }

    /** `initial_sequence`, with its first sample. */
    constructor (first: Vector)
      ensures Valid() && fresh(data) && Window() == [first] && nowData == first
    {
      data := new Vector[WINDOW_SIZE](_ => ZERO);
      front, rear, nowData := 0, -1, ZERO;
      new;
      UpdateSequence(first, true);
    }

    /** `in_sequence`; a full sequence stays as it is. */
    method InSequence(v: Vector)
      requires Valid()
      modifies this`rear, data
      ensures Valid() && Window() == if |old(Window())| == WINDOW_SIZE then old(Window()) else [v] + old(Window())
    {
      if rear == WINDOW_SIZE - 1 { return; }
      if rear < front {
        data[front] := v;
        rear := 0;
        return;
      }
      ghost var before := data[..];
      var i := rear;
      while i >= front
        invariant front - 1 <= i <= rear == old(rear) < WINDOW_SIZE - 1
        invariant forall j :: 0 <= j <= i ==> data[j] == before[j]
        invariant forall j :: i + 2 <= j <= rear + 1 ==> data[j] == before[j - 1]
        decreases i
      {
        data[i + 1] := data[i];
        i := i - 1;
      }
      data[front] := v;
      rear := rear + 1;
    }

    /** `out_sequence`: drop the oldest sample. */
    method OutSequence()
      requires Valid()
      modifies this`rear
      ensures Valid()
      ensures Window() == if old(Window()) == [] then [] else old(Window())[..|old(Window())| - 1]
    {
      if rear < front { return; }
      rear := rear - 1;
    }

    /** `update_sequence`, with the sample that it reads. */
    method UpdateSequence(d: Vector, doUpdate: bool)
      requires Valid()
      modifies this, data
      ensures Valid() && nowData == d
      ensures Window() == if doUpdate then Admit(old(Window()), d) else old(Window())
    {
      if doUpdate {
        if rear == WINDOW_SIZE - 1 { OutSequence(); }
        InSequence(d);
      }
      nowData := d;
    }

    /** `predict_value`. */
    method PredictValue() returns (predicted: Vector)
      requires Valid() && Window() != []
      ensures predicted == Sensor.Predicted(Window())
    {
      predicted := ZERO;
      var n := rear - front + 1;
      var total := 0;
      var coefficient := new int[n];
      for i := 0 to n
        invariant total == WeightTotal(n, i)
        invariant forall j :: 0 <= j < i ==> coefficient[j] == n - j
        invariant fresh(coefficient) && coefficient.Length == n
      {
        coefficient[i] := n - i;
        total := total + coefficient[i];
      }
      ghost var w := Window();
      for i := front to rear + 1
        invariant predicted == WeightedSum(w, n, i) && w == data[..rear + 1]
      {
        assert w[i] == data[i];
        predicted := Add(predicted, Scale(coefficient[i] as real, data[i]));
      }
      TotalWeight(n);
      predicted := Divide(predicted, total as real);
    }

    /** `caculate_avg`. */
    method CalculateAverage() returns (avg: Vector)
      requires Valid() && Window() != []
      ensures avg == Mean(Window())
    {
      avg := ZERO;
      ghost var w := Window();
      for i := front to rear + 1
        invariant avg == Sum(w, i) && w == data[..rear + 1]
      {
        assert w[i] == data[i];
        avg := Add(avg, data[i]);
      }
      avg := Divide(avg, (rear - front + 1) as real);
    }

    /** `caculate_std`. */
    method CalculateDeviation(root: Root) returns (deviation: Vector)
      requires Valid() && Window() != []
      ensures deviation == Deviation(root, Window())
    {
      var avg := CalculateAverage();
      var sum := ZERO;
      ghost var w := Window();
      for i := front to rear + 1
        invariant sum == SquareSum(w, avg, i) && w == data[..rear + 1]
      {
        assert w[i] == data[i];
        sum := Add(sum, Square(data[i], avg));
      }
      var v := Divide(sum, (rear - front + 1) as real);
      deviation := Vector(root(v.bytePs), root(v.pktPs), root(v.asyByte), root(v.asyPkt));
    }
  }

  /** The loop in `main`, its variables, and what it tells the outside. */
  class Monitor {
    const root: Root
    const sequence: DataSequence
    var portAlertStatus: bool
    var copyRegister: bool
    var startDropPkt: Counter
    var cancels: seq<nat>

    ghost predicate Valid()
      reads this, sequence
    {
      sequence.Valid()
    }

    ghost function St(): State
      reads this, sequence, sequence.data
      requires Valid()
    {
      State(sequence.Window(), portAlertStatus, copyRegister, startDropPkt, cancels)
    }

    constructor (root: Root, first: Vector)
      ensures Valid() && St() == Start(first) && this.root == root && fresh(sequence) && fresh(sequence.data)
    {
      this.root := root;
      sequence := new DataSequence(first);
      portAlertStatus, copyRegister, startDropPkt, cancels := false, false, 0, [];
    }

    method Iterate(input: Input)
      requires Valid() && Legal(St())
      modifies this, sequence, sequence.data
      ensures Valid() && Legal(St()) && St() == Step(root, old(St()), input)
    {
      hide Sensor.Predicted, Deviation, Attack, Admit, DropPackets;
      var doUpdate := !portAlertStatus;
      var predicted := sequence.PredictValue();
      var deviation := sequence.CalculateDeviation(root);
      sequence.UpdateSequence(input.sample, doUpdate);
      var attack := Attack(sequence.nowData, predicted, deviation);
      if attack {
        if !portAlertStatus {
          portAlertStatus := true;
          copyRegister := true;
          startDropPkt := input.drops;
        }
      } else if portAlertStatus {
        portAlertStatus := false;
        copyRegister := false;
        cancels := cancels + [DropPackets(startDropPkt, input.drops)];
      }
    }
  }

  /** The sensor after any number of iterations. */
  method Run(root: Root, first: Vector, inputs: seq<Input>) returns (monitor: Monitor)
    ensures fresh(monitor) && monitor.Valid() && monitor.St() == After(root, first, inputs, |inputs|)
    ensures monitor.sequence.Window() == Latest(Admitted(root, first, inputs, |inputs|))
    ensures monitor.copyRegister == monitor.portAlertStatus
    ensures |monitor.cancels| == |Episodes(root, first, inputs, |inputs|)|
  {
    hide Step, Sensor.Predicted, Deviation, Attack;
    monitor := new Monitor(root, first);
    for n := 0 to |inputs|
      invariant fresh(monitor) && fresh(monitor.sequence) && fresh(monitor.sequence.data) && monitor.Valid()
      invariant monitor.root == root && monitor.St() == After(root, first, inputs, n) && Legal(monitor.St())
    {
      monitor.Iterate(inputs[n]);
    }
    WindowIsLatest(root, first, inputs, |inputs|);
    CancelsMatchEpisodes(root, first, inputs, |inputs|);
  }
}
