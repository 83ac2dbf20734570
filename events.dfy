/** The two kinds of event channel between the receiver's workers, as
    values: `EventPipe::EventType` (src/common/event_pipe.hh), read by the
    audio receiver, and `EventQueue::EventType`
    (src/common/event_queue.hh), read by the lookup receiver, the UI and
    the retransmitter. A channel is the sequence of events written to it. */
module Events {
  datatype PipeEvent = NoEvent | StationChange | PacketLoss | SigInt

  datatype QueueEvent =
    | CurrentStationChanged
    | StationAdded
    | StationRemoved
    | ClientAdded
    | NewJobs
    | Terminate
}
