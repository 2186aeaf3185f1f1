/** The two semaphore operations of threads/synch.cc, on the semaphore alone. */
module Semaphores {
  type Tid = nat

  datatype Option<T> = None | Some(value: T)

  /**
   value and queue are the semaphore; woken and initial only record its history: the threads V
   has readied that have not re-tested the value, and the value it started with.
   */
  datatype Sem = Sem(value: nat, queue: seq<Tid>, woken: set<Tid>, initial: nat)

  function NewSem(initialValue: nat): Sem { Sem(initialValue, [], {}, initialValue) }

  /** One pass of the loop in P by thread t: take a unit, or join the queue. */
  function SemP(sem: Sem, t: Tid): Sem {
    var tested := sem.(woken := sem.woken - {t});
    if sem.value == 0 then tested.(queue := sem.queue + [t]) else tested.(value := sem.value - 1)
  }

  function SemV(sem: Sem): Sem {
    var raised := sem.(value := sem.value + 1);
    if sem.queue == [] then raised else raised.(queue := sem.queue[1..], woken := sem.woken + {sem.queue[0]})
  }
}
